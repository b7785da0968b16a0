/** The three-layer trie as functions on values: what `read`, `put` and `remove` do to the top
    root, the node store and the flattened index, step by step and with every error exit. */
module ZkTrieSpec {
  import opened Words
  import opened LeafPaths
  import opened Nodes
  import opened MerkleTree
  import opened SparseMerkle

  datatype FlattenedLeaf = FlattenedLeaf(leafIndex: U64, leafValue: Bytes)

  /** The neighbours of a hashed key, and the entry at the key itself if there is one. */
  datatype KeyRange = KeyRange(left: U64, center: Option<FlattenedLeaf>, right: U64)

  type Leaves = map<Word, FlattenedLeaf>

  /** The two ways a database answers `get_nearest_keys`: from an ordered index, or from a table
      of recorded answers with updates put aside in `staging`. */
  datatype Index =
    | Ordered(leaves: Leaves)
    | Recorded(table: map<(Word, Word), KeyRange>, staging: Leaves)

  predicate IsBelow(leaves: Leaves, hkey: Word, b: Word) {
    b in leaves && b < hkey && forall k | k in leaves && k < hkey :: k <= b
  }

  predicate IsAbove(leaves: Leaves, hkey: Word, a: Word) {
    a in leaves && a > hkey && forall k | k in leaves && k > hkey :: k >= a
  }

  lemma {:induction false} MaxExists(keys: set<Word>) returns (m: Word)
    requires keys != {}
    ensures m in keys && forall k | k in keys :: k <= m
  {
    var x :| x in keys;
    var rest := keys - {x};
    assert forall k | k in keys :: k == x || k in rest;
    if rest == {} {
      m := x;
    } else {
      m := MaxExists(rest);
      m := if x <= m then m else x;
    }
  }

  lemma {:induction false} MinExists(keys: set<Word>) returns (m: Word)
    requires keys != {}
    ensures m in keys && forall k | k in keys :: m <= k
  {
    var x :| x in keys;
    var rest := keys - {x};
    assert forall k | k in keys :: k == x || k in rest;
    if rest == {} {
      m := x;
    } else {
      m := MinExists(rest);
      m := if m <= x then m else x;
    }
  }

  /** The greatest key below `hkey`. */
  function Below(leaves: Leaves, hkey: Word): (r: Option<Word>)
    ensures r.Some? ==> IsBelow(leaves, hkey, r.value)
    ensures r.None? ==> forall k | k in leaves :: k >= hkey
  {
    var keys := set k | k in leaves && k < hkey;
    if keys == {} then
      assert forall k | k in leaves && k < hkey :: k in keys;
      None
    else
      assert exists m :: m in keys && forall k | k in keys :: k <= m by {
        var m := MaxExists(keys);
      }
      var m: Word :| m in keys && forall k | k in keys :: k <= m;
      assert forall k | k in leaves && k < hkey :: k in keys;
      Some(m)
  }

  /** The least key above `hkey`. */
  function Above(leaves: Leaves, hkey: Word): (r: Option<Word>)
    ensures r.Some? ==> IsAbove(leaves, hkey, r.value)
    ensures r.None? ==> forall k | k in leaves :: k <= hkey
  {
    var keys := set k | k in leaves && k > hkey;
    if keys == {} then
      assert forall k | k in leaves && k > hkey :: k in keys;
      None
    else
      assert exists m :: m in keys && forall k | k in keys :: m <= k by {
        var m := MinExists(keys);
      }
      var m: Word :| m in keys && forall k | k in keys :: m <= k;
      assert forall k | k in leaves && k > hkey :: k in keys;
      Some(m)
  }

  /** None where the original database would panic. */
  function Nearest(ix: Index, root: Word, hkey: Word): Option<KeyRange> {
    match ix
    case Ordered(leaves) =>
      var b, a := Below(leaves, hkey), Above(leaves, hkey);
      if b.None? || a.None? then None
      else
        Some(KeyRange(leaves[b.value].leafIndex,
                      if hkey in leaves then Some(leaves[hkey]) else None,
                      leaves[a.value].leafIndex))
    case Recorded(table, _) =>
      if (root, hkey) in table then Some(table[(root, hkey)]) else None
  }

  function UpdateIndex(ix: Index, hkey: Word, leaf: FlattenedLeaf): Index {
    match ix
    case Ordered(leaves) => Ordered(leaves[hkey := leaf])
    case Recorded(table, staging) => Recorded(table, staging[hkey := leaf])
  }

  function RemoveIndex(ix: Index, hkey: Word): Index {
    match ix
    case Ordered(leaves) => Ordered(leaves - {hkey})
    case Recorded(table, staging) => Recorded(table, staging - {hkey})
  }

  /** Against recorded answers an update is put aside, where no question finds it. */
  lemma RecordedStandsStill(table: map<(Word, Word), KeyRange>, staging: Leaves, hkey: Word, leaf: FlattenedLeaf)
    ensures var ix := UpdateIndex(Recorded(table, staging), hkey, leaf);
            && ix.Recorded? && hkey in ix.staging && ix.staging[hkey] == leaf
            && (forall r, k :: Nearest(ix, r, k) == Nearest(Recorded(table, staging), r, k))
    ensures var ix := RemoveIndex(Recorded(table, staging), hkey);
            && ix.Recorded? && ix.staging == staging - {hkey}
            && (forall r, k :: Nearest(ix, r, k) == Nearest(Recorded(table, staging), r, k))
  {
  }

  /** `trail` lists every top root the trie has been assigned, the current one last. */
  datatype State = State(root: Word, trail: seq<Word>, store: Store, index: Index)

  /** The state after a call, and the error it returned, if any. */
  datatype Out = Ok(st: State) | Err(st: State, error: Error) {
    predicate IsFailure() {
      Err?
    }
    function PropagateFailure(): (r: Out)
      requires Err?
    {
      this
    }
    function Extract(): State
      requires Ok?
    {
      st
    }
  }

  function Apply(st: State, u: Update): Out {
    match u
    case Failed(e) => Err(st, e)
    case Updated(s, d) => Ok(State(d, st.trail + [d], s, st.index))
  }

  function WriteLeaf(h: Hash, st: State, idx: nat, value: Bytes): Out {
    Apply(st, AddLeaf(h, st.store, 0, st.root, LeafPath(idx), value))
  }

  function DropLeaf(h: Hash, st: State, idx: nat): Out {
    Apply(st, RemoveLeaf(h, st.store, 0, st.root, LeafPath(idx)))
  }

  function ParseNode(h: Hash, m: Mode, st: State, idx: nat): Result<LeafOpening, Error> {
    ParsePath(h, m, st, LeafPath(idx))
  }

  function ParsePath(h: Hash, m: Mode, st: State, path: Bytes): Result<LeafOpening, Error> {
    match GetNode(h, st.store, 0, st.root, path)
    case Failure(e) => Failure(e)
    case Success(None) => Failure(KeyNotFound)
    case Success(Some(n)) =>
      if NodeValue(n).Some? then Parse(m, NodeValue(n).value) else Failure(ParseNodeFail)
  }

  /** The three ways a leaf already in the tree is changed. */
  datatype Edit = SetNext(index: U64) | SetPrev(index: U64) | SetHval(hval: Word)

  function Edited(o: LeafOpening, e: Edit): LeafOpening {
    match e
    case SetNext(i) => o.(next := i)
    case SetPrev(i) => o.(prev := i)
    case SetHval(v) => o.(hval := v)
  }

  /** Parses the leaf at `idx`, changes one field and writes it back. */
  function EditLeaf(h: Hash, m: Mode, st: State, idx: nat, e: Edit): Out {
    match ParseNode(h, m, st, idx)
    case Failure(err) => Err(st, err)
    case Success(o) => WriteLeaf(h, st, idx, ToBytes(Edited(o, e)))
  }

  function IncrementFree(h: Hash, st: State): Out {
    match NextFreeNode(h, st.store, st.root)
    case Failure(e) => Err(st, e)
    case Success(free) =>
      if free + 1 >= TWO_TO_64 then Err(st, Panic)
      else Apply(st, SetNextFree(h, st.store, st.root, free + 1))
  }

  /** A key not yet in the trie: link the left neighbour, write the new leaf at the free index,
      link the right neighbour, move the counter. */
  function PutFresh(h: Hash, m: Mode, st: State, near: KeyRange, hkey: Word, value: Bytes): Out {
    if near.left >= INDEX_LIMIT || near.right >= INDEX_LIMIT then Err(st, Panic)
    else match NextFreeNode(h, st.store, st.root)
      case Failure(e) => Err(st, e)
      case Success(free) =>
        var st1 :- EditLeaf(h, m, st, near.left, SetNext(free));
        if free >= INDEX_LIMIT then Err(st1, Panic)
        else if !Hashable(value) then Err(st1, HashError(value))
        else AddFresh(h, m, st1, near, free, hkey, value)
  }

  /** The index entry and the new leaf, with its left neighbour already linked to it. */
  function AddFresh(h: Hash, m: Mode, st: State, near: KeyRange, free: U64, hkey: Word,
                    value: Bytes): Out
    requires Hashable(value)
  {
    var ix := UpdateIndex(st.index, hkey, FlattenedLeaf(free, value));
    var leaf := LeafOpening(hkey, h(value), near.left, near.right);
    var st' :- WriteLeaf(h, st.(index := ix), free, ToBytes(leaf));
    LinkRight(h, m, st', near.right, free)
  }

  function LinkRight(h: Hash, m: Mode, st: State, right: U64, free: U64): Out {
    var st' :- EditLeaf(h, m, st, right, SetPrev(free));
    IncrementFree(h, st')
  }

  /** A key already in the trie: replace its value in the index and its value hash in the leaf. */
  function PutExisting(h: Hash, m: Mode, st: State, idx: U64, hkey: Word, value: Bytes): Out {
    if idx >= INDEX_LIMIT then Err(st, Panic)
    else if !Hashable(value) then Err(st, HashError(value))
    else
      var ix := UpdateIndex(st.index, hkey, FlattenedLeaf(idx, value));
      EditLeaf(h, m, st.(index := ix), idx, SetHval(h(value)))
  }

  function Put(h: Hash, m: Mode, st: State, key: Bytes, value: Bytes): Out {
    if !Hashable(key) then Err(st, HashError(key))
    else match Nearest(st.index, st.root, h(key))
      case None => Err(st, Panic)
      case Some(near) =>
        if SubRoot(h, st.store, st.root).Failure? then
          Err(st, SubRoot(h, st.store, st.root).error)
        else
          var st' :- (if near.center.None? then PutFresh(h, m, st, near, h(key), value)
                      else PutExisting(h, m, st, near.center.value.leafIndex, h(key), value));
          if SubRoot(h, st'.store, st'.root).Failure? then
            Err(st', SubRoot(h, st'.store, st'.root).error)
          else Ok(st')
  }

  /** Unlink from the left, drop the leaf and its index entry, unlink from the right. */
  function RemoveExisting(h: Hash, m: Mode, st: State, near: KeyRange, idx: U64, hkey: Word): Out {
    if near.left >= INDEX_LIMIT || near.right >= INDEX_LIMIT then Err(st, Panic)
    else
      var st1 :- EditLeaf(h, m, st, near.left, SetNext(near.right));
      DropExisting(h, m, st1, near, idx, hkey)
  }

  function DropExisting(h: Hash, m: Mode, st: State, near: KeyRange, idx: U64, hkey: Word): Out {
    if idx >= INDEX_LIMIT then Err(st, Panic)
    else if ParseNode(h, m, st, idx).Failure? then Err(st, ParseNode(h, m, st, idx).error)
    else
      var st' :- DropLeaf(h, st.(index := RemoveIndex(st.index, hkey)), idx);
      EditLeaf(h, m, st', near.right, SetPrev(near.left))
  }

  function Remove(h: Hash, m: Mode, st: State, key: Bytes): Out {
    if !Hashable(key) then Err(st, HashError(key))
    else match Nearest(st.index, st.root, h(key))
      case None => Err(st, Panic)
      case Some(near) =>
        if near.center.None? then Ok(st)
        else RemoveExisting(h, m, st, near, near.center.value.leafIndex, h(key))
  }

  function Read(h: Hash, st: State, key: Bytes): Result<Option<Bytes>, Error> {
    if !Hashable(key) then Failure(HashError(key))
    else match Nearest(st.index, st.root, h(key))
      case None => Failure(Panic)
      case Some(near) =>
        Success(if near.center.Some? then Some(near.center.value.leafValue) else None)
  }

  const FLAT_HEAD := FlattenedLeaf(HEAD_INDEX, Be32(0))
  const FLAT_TAIL := FlattenedLeaf(TAIL_INDEX, Be32(0))

  /** The sentinels' index entries are their leaves' positions and value hashes. */
  lemma FlatSentinels()
    ensures FLAT_HEAD == FlattenedLeaf(0, Be32(HEAD.hval)) && FLAT_TAIL == FlattenedLeaf(HEAD.next, Be32(TAIL.hval))
  {
  }

  /** Writes a sentinel at the free index and moves the counter; `ix` is the index afterwards. */
  function PutSentinel(h: Hash, st: State, i: U64, o: LeafOpening, ix: Index): Out {
    if i >= INDEX_LIMIT then Err(st, Panic)
    else
      var st' :- WriteLeaf(h, st, i, ToBytes(o));
      IncrementFree(h, st'.(index := ix))
  }

  /** `set_head_and_tail`: each sentinel goes to the current free index. */
  function SetHeadAndTail(h: Hash, st: State): Out {
    match NextFreeNode(h, st.store, st.root)
    case Failure(e) => Err(st, e)
    case Success(i) =>
      var st1 :- PutSentinel(h, st, i, HEAD, UpdateIndex(st.index, HEAD_KEY, FLAT_HEAD));
      match NextFreeNode(h, st1.store, st1.root)
      case Failure(e) => Err(st1, e)
      case Success(j) =>
        var ix := UpdateIndex(st1.index, TAIL_KEY, FLAT_TAIL);
        PutSentinel(h, st1.(index := ix), j, TAIL, ix)
  }

  function Fresh(h: Hash, s: Store, index: Index): State {
    var root := NodeHash(h, EmptyTop(h));
    State(root, [root], s, index)
  }

  /** `ZkTrie::empty`. */
  function Empty(h: Hash, s: Store, index: Index): Out {
    SetHeadAndTail(h, Fresh(h, s, index))
  }

  // ----- answers an operation cannot use -----

  /** An answer out of range: an index with no path of its own. */
  predicate OutOfRange(near: KeyRange, change: Change) {
    match change
    case Insertion => near.left >= INDEX_LIMIT || near.right >= INDEX_LIMIT
    case Overwriting => near.center.Some? && near.center.value.leafIndex >= INDEX_LIMIT
    case Deletion => near.left >= INDEX_LIMIT || near.right >= INDEX_LIMIT
  }

  datatype Change = Insertion | Overwriting | Deletion

  /** A recorded answer that names an index without a path makes the operation panic before it has changed
      anything. So does no answer. */
  lemma BadAnswerPanics(h: Hash, m: Mode, st: State, near: KeyRange, hkey: Word, value: Bytes)
    ensures OutOfRange(near, Insertion) ==> PutFresh(h, m, st, near, hkey, value) == Err(st, Panic)
    ensures near.center.Some? && OutOfRange(near, Overwriting) ==>
              PutExisting(h, m, st, near.center.value.leafIndex, hkey, value) == Err(st, Panic)
    ensures near.center.Some? && OutOfRange(near, Deletion) ==>
              RemoveExisting(h, m, st, near, near.center.value.leafIndex, hkey) == Err(st, Panic)
  {
  }

  lemma NoAnswerPanics(h: Hash, m: Mode, st: State, key: Bytes, value: Bytes)
    requires Hashable(key) && Nearest(st.index, st.root, h(key)).None?
    ensures Put(h, m, st, key, value) == Err(st, Panic) && Remove(h, m, st, key) == Err(st, Panic)
    ensures Read(h, st, key) == Failure(Panic)
  {
    hide Nearest;
  }

  /** The counter cannot go past 64 bits, and a sentinel cannot go past the last index. */
  lemma FullCounterPanics(h: Hash, st: State)
    requires NextFreeNode(h, st.store, st.root) == Success(TWO_TO_64 - 1)
    ensures IncrementFree(h, st) == Err(st, Panic) && SetHeadAndTail(h, st) == Err(st, Panic)
  {
  }

  /** Without its root node the trie cannot be written, and is not touched. */
  lemma PutNeedsRoot(h: Hash, m: Mode, st: State, key: Bytes, value: Bytes)
    requires Hashable(key) && Nearest(st.index, st.root, h(key)).Some? && Lookup(h, st.store, st.root).None?
    ensures Put(h, m, st, key, value) == Err(st, RootNodeNotFound)
    ensures IncrementFree(h, st) == Err(st, RootNodeNotFound) && SetHeadAndTail(h, st) == Err(st, RootNodeNotFound)
  {
    hide Nearest, Lookup;
    RootErrors(h, st.store, st.root, 0);
  }
}
