/** The objects that are updated in place: the memory store, the sparse Merkle trie over it, and the
    zk trie with its index. Each method does to the fields what the functions of MerkleTree,
    SparseMerkle and ZkTrieSpec do to the values read from them. */
module TrieObjects {
  import opened Words
  import opened LeafPaths
  import opened Nodes
  import opened Tree = MerkleTree
  import opened SparseMerkle
  import Spec = ZkTrieSpec
  import opened Traces
  import opened MerkleProofs

  /** The prefix of the account trie. */
  const TRACE_PREFIX: U64 := TWO_TO_64 - 1

  lemma PrefixIsTop(prefix: U64)
    ensures prefix <= TRACE_PREFIX
  {
  }

  /** Recorded answers by root, prefix and hashed key. */
  type LevelMap = map<(Word, U64, Word), Spec.KeyRange>

  /** The answers recorded under one prefix. */
  function Under(vals: LevelMap, prefix: U64): Table {
    map q | q in vals && q.1 == prefix :: (q.0, q.2) := vals[q]
  }

  function FiledUnder(table: Table, prefix: U64): LevelMap {
    map q | q in table :: (q.0, prefix, q.1) := table[q]
  }

  lemma UnderFiled(table: Table, prefix: U64)
    ensures Under(FiledUnder(table, prefix), prefix) == table
    ensures forall p | p != prefix :: Under(FiledUnder(table, prefix), p) == map[]
  {
    var vals := FiledUnder(table, prefix);
    assert forall q | q in table :: (q.0, prefix, q.1) in vals;
    assert Under(vals, prefix) == table;
  }

  lemma UnderHas(vals: LevelMap, root: Word, prefix: U64, hkey: Word)
    ensures (root, prefix, hkey) in vals <==> (root, hkey) in Under(vals, prefix)
    ensures (root, prefix, hkey) in vals ==> vals[(root, prefix, hkey)] == Under(vals, prefix)[(root, hkey)]
  {
    var q := (root, prefix, hkey);
    assert q in vals ==> (q.0, q.2) in Under(vals, prefix);
  }

  /** A new answer shows under its own prefix and under no other. */
  lemma UnderAdded(vals: LevelMap, root: Word, prefix: U64, hkey: Word, answer: Spec.KeyRange)
    ensures Under(vals[(root, prefix, hkey) := answer], prefix) == Under(vals, prefix)[(root, hkey) := answer]
    ensures forall p | p != prefix :: Under(vals[(root, prefix, hkey) := answer], p) == Under(vals, p)
  {
    var more := vals[(root, prefix, hkey) := answer];
    assert (root, prefix, hkey) in more;
    forall r: Word, k: Word, p: U64
      ensures (r, k) in Under(more, p) <==> (r, k) in Under(vals, p) || (p == prefix && r == root && k == hkey)
    {
      UnderHas(more, r, p, k);
      UnderHas(vals, r, p, k);
    }
  }

  class MemStore {
    const h: Hash
    const emptyNodes: map<Word, Node>
    var nodes: map<Word, Node>
    var vals: LevelMap
    var staging: Spec.Leaves

    ghost predicate Valid() {
      emptyNodes == EmptyTable(h)
    }

    ghost function Content(): Store
      reads this
    {
      nodes
    }

    ghost function TableOf(prefix: U64): Table
      reads this
    {
      Under(vals, prefix)
    }

    ghost function Index(prefix: U64): Spec.Index
      reads this
    {
      Spec.Recorded(TableOf(prefix), staging)
    }

    constructor New(h: Hash)
      ensures Valid() && this.h == h
      ensures Content() == map[] && vals == map[] && staging == map[]
    {
      var top, empty := InitWorldState(h);
      this.h := h;
      emptyNodes := empty;
      nodes, vals, staging := map[], map[], map[];
    }

    method GetNode(key: Word) returns (r: Option<Node>)
      requires Valid()
      ensures r == Lookup(h, Content(), key)
    {
      if key in emptyNodes {
        return Some(emptyNodes[key]);
      }
      return if key in nodes then Some(nodes[key]) else None;
    }

    method UpdateNode(n: Node) returns (digest: Digest)
      requires Valid()
      modifies this`nodes
      ensures Content() == Insert(h, old(Content()), n) && digest == NodeHash(h, n)
    {
      digest := NodeHash(h, n);
      nodes := nodes[digest := n];
    }

    method GetNearestKeys(prefix: U64, root: Word, hkey: Word) returns (r: Option<Spec.KeyRange>)
      ensures r == Spec.Nearest(Index(prefix), root, hkey)
    {
      var q := (root, prefix, hkey);
      UnderHas(vals, root, prefix, hkey);
      return if q in vals then Some(vals[q]) else None;
    }

    method UpdateIndex(hkey: Word, leaf: Spec.FlattenedLeaf)
      modifies this`staging
      ensures forall p :: Index(p) == Spec.UpdateIndex(old(Index(p)), hkey, leaf)
    {
      staging := staging[hkey := leaf];
    }

    method RemoveIndex(hkey: Word)
      modifies this`staging
      ensures forall p :: Index(p) == Spec.RemoveIndex(old(Index(p)), hkey)
    {
      staging := staging - {hkey};
    }

    /** Inserts nodes in order, later ones displacing earlier ones of the same digest. */
    method InsertNodes(ns: seq<Node>)
      requires Valid()
      modifies this`nodes
      ensures Content() == InsertAll(h, old(Content()), ns)
    {
      for i := 0 to |ns|
        invariant Content() == InsertAll(h, old(Content()), ns[..i])
      {
        assert ns[..i + 1][..i] == ns[..i];
        var _ := UpdateNode(ns[i]);
      }
      assert ns[..|ns|] == ns;
    }

    /** `from_traces`: the nodes of every trace, then the answer table under the one prefix of the account
        trie. Nothing is usable when a trace makes the original panic. */
    method LoadTraces(traces: seq<Trace>) returns (ok: bool)
      requires Valid() && Content() == map[] && vals == map[]
      modifies this
      ensures ok <==> traces != [] && AllNodes(h, traces).Some? && FromTraces(h, traces).Some?
      ensures ok ==> Content() == InsertAll(h, map[], AllNodes(h, traces).value)
      ensures ok ==> TableOf(TRACE_PREFIX) == FromTraces(h, traces).value && staging == old(staging)
      ensures ok ==> forall p | p != TRACE_PREFIX :: TableOf(p) == map[]
    {
      hide Under, FiledUnder;
      var ns: seq<Node> := [];
      for i := 0 to |traces|
        invariant AllNodes(h, traces[..i]) == Some(ns)
      {
        assert traces[..i + 1][..i] == traces[..i];
        var stored := StoredNodes(h, traces[i]);
        if stored.None? {
          NoNodes(h, traces, i + 1);
          return false;
        }
        ns := ns + stored.value;
      }
      assert traces[..|traces|] == traces;
      InsertNodes(ns);
      var answers := LevelMapFromTraces(h, traces);
      if answers.None? {
        return false;
      }
      vals := FiledUnder(answers.value, TRACE_PREFIX);
      UnderFiled(answers.value, TRACE_PREFIX);
      return true;
    }

    static lemma {:induction false} NoNodes(h: Hash, traces: seq<Trace>, k: nat)
      requires k <= |traces| && AllNodes(h, traces[..k]).None?
      ensures AllNodes(h, traces).None?
      decreases |traces| - k
    {
      if k == |traces| {
        assert traces[..k] == traces;
      } else {
        assert traces[..k + 1][..k] == traces[..k];
        NoNodes(h, traces, k + 1);
      }
    }

    /** `add_proof`; on an error the store is untouched, except that a missing value is noticed only
        after the nodes went in. */
    method AddProof(prefix: U64, idx: U64, hkey: Word, value: Option<Bytes>, p: ProofBytes)
      returns (r: Result<Word, Error>)
      requires Valid()
      modifies this`nodes, this`vals
      ensures var spec := MerkleProofs.AddProof(h, old(Content()), old(TableOf(prefix)), idx, hkey, value, p);
              match spec
              case Failure(e) => r == Failure(e) && vals == old(vals)
              case Success(added) =>
                r == Success(added.root) && Content() == added.store && TableOf(prefix) == added.table
      ensures forall q | q != prefix :: TableOf(q) == old(TableOf(q))
      ensures CheckProof(h, idx, p).Failure? ==> Content() == old(Content())
    {
      hide Under, InsertAll, NodeHash;
      var checked := CheckProofLoop(h, idx, p);
      if checked.Failure? {
        return Failure(checked.error);
      }
      InsertNodes(checked.value);
      var root := NodeHash(h, ProofRoot(p));
      UnderHas(vals, root, prefix, hkey);
      if (root, prefix, hkey) !in vals {
        if value.None? {
          return Failure(Panic);
        }
        var answer := Spec.KeyRange(0, Some(Spec.FlattenedLeaf(idx, value.value)), 0);
        UnderAdded(vals, root, prefix, hkey, answer);
        vals := vals[(root, prefix, hkey) := answer];
      }
      return Success(root);
    }
  }

  /** A store with the prefix one trie looks its keys up under. */
  class PrefixDB {
    const prefix: U64
    const raw: MemStore

    constructor (prefix: U64, raw: MemStore)
      ensures this.prefix == prefix && this.raw == raw
    {
      this.prefix, this.raw := prefix, raw;
    }

    ghost predicate Valid() {
      raw.Valid()
    }

    ghost function Content(): Store
      reads raw
    {
      raw.Content()
    }

    ghost function Index(): Spec.Index
      reads raw
    {
      raw.Index(prefix)
    }

    method GetNode(key: Word) returns (r: Option<Node>)
      requires Valid()
      ensures r == Lookup(raw.h, Content(), key)
    {
      r := raw.GetNode(key);
    }

    method UpdateNode(n: Node) returns (digest: Digest)
      requires Valid()
      modifies raw`nodes
      ensures Content() == Insert(raw.h, old(Content()), n) && digest == NodeHash(raw.h, n)
    {
      digest := raw.UpdateNode(n);
    }

    method GetNearestKeys(root: Word, hkey: Word) returns (r: Option<Spec.KeyRange>)
      ensures r == Spec.Nearest(Index(), root, hkey)
    {
      r := raw.GetNearestKeys(prefix, root, hkey);
    }

    method UpdateIndex(hkey: Word, leaf: Spec.FlattenedLeaf)
      modifies raw`staging
      ensures Index() == Spec.UpdateIndex(old(Index()), hkey, leaf)
    {
      raw.UpdateIndex(hkey, leaf);
    }

    method RemoveIndex(hkey: Word)
      modifies raw`staging
      ensures Index() == Spec.RemoveIndex(old(Index()), hkey)
    {
      raw.RemoveIndex(hkey);
    }
  }

  class SparseMerkleTrie {
    var rootHash: Word
    ghost var trail: seq<Word>

    constructor (root: Word)
      ensures rootHash == root && trail == [root]
    {
      rootHash, trail := root, [root];
    }

    /** The outcome `u` of a tree operation, on the store and in the returned value. */
    static ghost predicate Did(db: PrefixDB, before: Store, u: Update, r: Result<Word, Error>)
      reads db.raw
    {
      match u
      case Failed(e) => r == Failure(e) && db.Content() == before
      case Updated(s, d) => r == Success(d) && db.Content() == s
    }

    method AddLeaf(db: PrefixDB, lvl: nat, current: Word, path: Bytes, value: Bytes)
      returns (r: Result<Word, Error>)
      requires db.Valid()
      modifies db.raw`nodes
      ensures Did(db, old(db.Content()), Tree.AddLeaf(db.raw.h, old(db.Content()), lvl, current, path, value), r)
      decreases ZK_TRIE_DEPTH + 2 - lvl
    {
      if lvl >= ZK_TRIE_DEPTH + 2 {
        return Failure(ReachedMaxLevel);
      }
      var found := db.GetNode(current);
      if found.None? {
        return Failure(NodeNotFound);
      }
      if lvl > |path| {
        return Failure(Panic);
      }
      match found.value {
        case Branch(_, _) =>
          if lvl == |path| || path[lvl] > 1 {
            return Failure(Panic);
          }
          var below := AddLeaf(db, lvl + 1, Child(found.value, path[lvl]), path, value);
          if below.Failure? {
            return below;
          }
          var digest := db.UpdateNode(NewReplace(found.value, path[lvl], below.value));
          return Success(digest);
        case Leaf(p, _) =>
          var common := CommonPrefix(p, path[lvl..]);
          if common != |p| {
            return Failure(PathNotAllow);
          }
        case EmptyLeaf =>
        case NextFree(p, _) =>
          var common := CommonPrefix(p, path[lvl..]);
          if common != |p| {
            return Failure(Panic);
          }
      }
      if !Buildable(MakeLeaf(path[lvl..], value)) {
        return Failure(Panic);
      }
      var digest := db.UpdateNode(MakeLeaf(path[lvl..], value));
      return Success(digest);
    }

    method RemoveLeaf(db: PrefixDB, lvl: nat, current: Word, path: Bytes)
      returns (r: Result<Word, Error>)
      requires db.Valid()
      modifies db.raw`nodes
      ensures Did(db, old(db.Content()), Tree.RemoveLeaf(db.raw.h, old(db.Content()), lvl, current, path), r)
      decreases ZK_TRIE_DEPTH + 2 - lvl
    {
      if lvl >= ZK_TRIE_DEPTH + 2 {
        return Failure(ReachedMaxLevel);
      }
      var found := db.GetNode(current);
      if found.None? {
        return Failure(NodeNotFound);
      }
      if !found.value.Branch? {
        return Success(NodeHash(db.raw.h, EmptyLeaf));
      }
      if lvl >= |path| || path[lvl] > 1 {
        return Failure(Panic);
      }
      var below := RemoveLeaf(db, lvl + 1, Child(found.value, path[lvl]), path);
      if below.Failure? {
        return below;
      }
      var digest := db.UpdateNode(NewReplace(found.value, path[lvl], below.value));
      return Success(digest);
    }

    /** Walks down from the root; only reads. */
    method GetNode(db: PrefixDB, path: Bytes) returns (r: Result<Option<Node>, Error>)
      requires db.Valid()
      ensures r == Tree.GetNode(db.raw.h, db.Content(), 0, rootHash, path)
    {
      var next: Word := rootHash;
      for i := 0 to ZK_TRIE_DEPTH + 2
        invariant Tree.GetNode(db.raw.h, db.Content(), 0, rootHash, path)
               == Tree.GetNode(db.raw.h, db.Content(), i, next, path)
      {
        var found := db.GetNode(next);
        if found.None? {
          return Failure(NodeNotFound);
        }
        match found.value {
          case Branch(left, right) =>
            if i >= |path| {
              return Failure(Panic);
            }
            next := if path[i] == 0 then left else right;
          case EmptyLeaf =>
            return Success(None);
          case Leaf(p, _) =>
            if i > |path| {
              return Failure(Panic);
            }
            return Success(if p == path[i..] then found else None);
          case NextFree(p, _) =>
            if i > |path| || p != path[i..] {
              return Failure(Panic);
            }
            return Success(found);
        }
      }
      return Failure(ReachedMaxLevel);
    }

    /** The root moved to the outcome's digest, or nothing moved. */
    ghost predicate Moved(db: PrefixDB, before: Store, root: Word, roots: seq<Word>, u: Update,
                          r: Result<(), Error>)
      reads this, db.raw
    {
      match u
      case Failed(e) =>
        r == Failure(e) && db.Content() == before && rootHash == root && trail == roots
      case Updated(s, d) =>
        r == Success(()) && db.Content() == s && rootHash == d && trail == roots + [d]
    }

    method Put(db: PrefixDB, path: Bytes, value: Bytes) returns (r: Result<(), Error>)
      requires db.Valid()
      modifies this, db.raw`nodes
      ensures var u := Tree.AddLeaf(db.raw.h, old(db.Content()), 0, old(rootHash), path, value);
              Moved(db, old(db.Content()), old(rootHash), old(trail), u, r)
    {
      var updated := AddLeaf(db, 0, rootHash, path, value);
      if updated.Failure? {
        return Failure(updated.error);
      }
      rootHash, trail := updated.value, trail + [updated.value];
      return Success(());
    }

    method Remove(db: PrefixDB, path: Bytes) returns (r: Result<(), Error>)
      requires db.Valid()
      modifies this, db.raw`nodes
      ensures var u := Tree.RemoveLeaf(db.raw.h, old(db.Content()), 0, old(rootHash), path);
              Moved(db, old(db.Content()), old(rootHash), old(trail), u, r)
    {
      var updated := RemoveLeaf(db, 0, rootHash, path);
      if updated.Failure? {
        return Failure(updated.error);
      }
      rootHash, trail := updated.value, trail + [updated.value];
      return Success(());
    }

    method RootNode(db: PrefixDB) returns (r: Result<Node, Error>)
      requires db.Valid()
      ensures r.Success? ==> r.value.Branch? && Lookup(db.raw.h, db.Content(), rootHash) == Some(r.value)
      ensures r.Failure? ==>
                match Lookup(db.raw.h, db.Content(), rootHash)
                case None => r.error == RootNodeNotFound
                case Some(n) => !n.Branch? && r.error == RootNotBranch
    {
      var found := db.GetNode(rootHash);
      if found.None? {
        return Failure(RootNodeNotFound);
      }
      if !found.value.Branch? {
        return Failure(RootNotBranch);
      }
      return Success(found.value);
    }

    method SubRootHash(db: PrefixDB) returns (r: Result<Word, Error>)
      requires db.Valid()
      ensures r == SubRoot(db.raw.h, db.Content(), rootHash)
    {
      var root := RootNode(db);
      return if root.Failure? then Failure(root.error) else Success(root.value.right);
    }

    method NextFree(db: PrefixDB) returns (r: Result<U64, Error>)
      requires db.Valid()
      ensures r == NextFreeNode(db.raw.h, db.Content(), rootHash)
    {
      var root := RootNode(db);
      if root.Failure? {
        return Failure(root.error);
      }
      ParseNodeIndexIsLow64(root.value.left);
      var index := ParseNodeIndex(Be32(root.value.left)).value;
      return Success(index);
    }

    method SetNextFree(db: PrefixDB, free: U64) returns (r: Result<(), Error>)
      requires db.Valid()
      modifies this, db.raw`nodes
      ensures var u := SparseMerkle.SetNextFree(db.raw.h, old(db.Content()), old(rootHash), free);
              Moved(db, old(db.Content()), old(rootHash), old(trail), u, r)
    {
      var root := RootNode(db);
      if root.Failure? {
        return Failure(root.error);
      }
      var digest := db.UpdateNode(TopNode(free, root.value.right));
      rootHash, trail := digest, trail + [digest];
      return Success(());
    }
  }

  class ZkTrie {
    const mode: Mode
    const state: SparseMerkleTrie

    constructor (mode: Mode, root: Word)
      ensures this.mode == mode && fresh(state) && state.rootHash == root && state.trail == [root]
    {
      this.mode := mode;
      state := new SparseMerkleTrie(root);
    }

    ghost function View(db: PrefixDB): Spec.State
      reads this, state, db.raw
    {
      Spec.State(state.rootHash, state.trail, db.Content(), db.Index())
    }

    /** The call ended in state and result as `out` says. */
    ghost predicate Ends(db: PrefixDB, out: Spec.Out, r: Result<(), Error>)
      reads this, state, db.raw
    {
      View(db) == out.st && r == (if out.Ok? then Success(()) else Failure(out.error))
    }

    method ParseNode(db: PrefixDB, path: Bytes) returns (r: Result<LeafOpening, Error>)
      requires db.Valid()
      ensures r == Spec.ParsePath(db.raw.h, mode, View(db), path)
    {
      var found := state.GetNode(db, path);
      if found.Failure? {
        return Failure(found.error);
      }
      if found.value.None? {
        return Failure(KeyNotFound);
      }
      var data := NodeValue(found.value.value);
      return if data.None? then Failure(ParseNodeFail) else Parse(mode, data.value);
    }

    method WriteLeaf(db: PrefixDB, idx: nat, value: Bytes) returns (r: Result<(), Error>)
      requires db.Valid() && idx < INDEX_LIMIT
      modifies state, db.raw`nodes
      ensures Ends(db, Spec.WriteLeaf(db.raw.h, old(View(db)), idx, value), r)
    {
      var path := GetLeafPath(idx, true);
      r := state.Put(db, path.value, value);
    }

    method EditLeaf(db: PrefixDB, idx: nat, e: Spec.Edit) returns (r: Result<(), Error>)
      requires db.Valid() && idx < INDEX_LIMIT
      modifies state, db.raw`nodes
      ensures Ends(db, Spec.EditLeaf(db.raw.h, mode, old(View(db)), idx, e), r)
    {
      var path := GetLeafPath(idx, true);
      var prior := ParseNode(db, path.value);
      if prior.Failure? {
        return Failure(prior.error);
      }
      r := WriteLeaf(db, idx, ToBytes(Spec.Edited(prior.value, e)));
    }

    method IncrementFree(db: PrefixDB) returns (r: Result<(), Error>)
      requires db.Valid()
      modifies state, db.raw`nodes
      ensures Ends(db, Spec.IncrementFree(db.raw.h, old(View(db))), r)
    {
      hide Under, Lookup, Insert;
      var free := state.NextFree(db);
      if free.Failure? {
        return Failure(free.error);
      }
      if free.value + 1 >= TWO_TO_64 {
        return Failure(Panic);
      }
      r := state.SetNextFree(db, free.value + 1);
    }

    method Read(db: PrefixDB, key: Bytes) returns (r: Result<Option<Bytes>, Error>)
      requires db.Valid()
      ensures r == Spec.Read(db.raw.h, View(db), key)
    {
      var hkey := TrieHash(db.raw.h, key);
      if hkey.Failure? {
        return Failure(hkey.error);
      }
      var near := db.GetNearestKeys(state.rootHash, hkey.value);
      if near.None? {
        return Failure(Panic);
      }
      return Success(if near.value.center.Some? then Some(near.value.center.value.leafValue) else None);
    }

    method AddFresh(db: PrefixDB, near: Spec.KeyRange, free: U64, hkey: Digest, value: Bytes)
      returns (r: Result<(), Error>)
      requires db.Valid() && Hashable(value) && free < INDEX_LIMIT && near.right < INDEX_LIMIT
      modifies state, db.raw`nodes, db.raw`staging
      ensures Ends(db, Spec.AddFresh(db.raw.h, mode, old(View(db)), near, free, hkey, value), r)
    {
      hide Under, Lookup, Insert, ToBytes, Tree.AddLeaf, Tree.GetNode;
      db.UpdateIndex(hkey, Spec.FlattenedLeaf(free, value));
      r := WriteLeaf(db, free, ToBytes(LeafOpening(hkey, db.raw.h(value), near.left, near.right)));
      if r.Failure? {
        return;
      }
      r := EditLeaf(db, near.right, Spec.SetPrev(free));
      if r.Failure? {
        return;
      }
      r := IncrementFree(db);
    }

    method PutFresh(db: PrefixDB, near: Spec.KeyRange, hkey: Digest, value: Bytes)
      returns (r: Result<(), Error>)
      requires db.Valid()
      modifies state, db.raw`nodes, db.raw`staging
      ensures Ends(db, Spec.PutFresh(db.raw.h, mode, old(View(db)), near, hkey, value), r)
    {
      if near.left >= INDEX_LIMIT || near.right >= INDEX_LIMIT {
        return Failure(Panic);
      }
      var free := state.NextFree(db);
      if free.Failure? {
        return Failure(free.error);
      }
      r := EditLeaf(db, near.left, Spec.SetNext(free.value));
      if r.Failure? {
        return;
      }
      if free.value >= INDEX_LIMIT {
        return Failure(Panic);
      }
      if !Hashable(value) {
        return Failure(HashError(value));
      }
      r := AddFresh(db, near, free.value, hkey, value);
    }

    method PutExisting(db: PrefixDB, idx: U64, hkey: Digest, value: Bytes) returns (r: Result<(), Error>)
      requires db.Valid()
      modifies state, db.raw`nodes, db.raw`staging
      ensures Ends(db, Spec.PutExisting(db.raw.h, mode, old(View(db)), idx, hkey, value), r)
    {
      if idx >= INDEX_LIMIT {
        return Failure(Panic);
      }
      if !Hashable(value) {
        return Failure(HashError(value));
      }
      db.UpdateIndex(hkey, Spec.FlattenedLeaf(idx, value));
      r := EditLeaf(db, idx, Spec.SetHval(db.raw.h(value)));
    }

    method Put(db: PrefixDB, key: Bytes, value: Bytes) returns (r: Result<(), Error>)
      requires db.Valid()
      modifies state, db.raw`nodes, db.raw`staging
      ensures Ends(db, Spec.Put(db.raw.h, mode, old(View(db)), key, value), r)
    {
      hide Spec.PutFresh, Spec.PutExisting;
      var hkey := TrieHash(db.raw.h, key);
      if hkey.Failure? {
        return Failure(hkey.error);
      }
      var near := db.GetNearestKeys(state.rootHash, hkey.value);
      if near.None? {
        return Failure(Panic);
      }
      var before := state.SubRootHash(db);
      if before.Failure? {
        return Failure(before.error);
      }
      if near.value.center.None? {
        r := PutFresh(db, near.value, hkey.value, value);
      } else {
        r := PutExisting(db, near.value.center.value.leafIndex, hkey.value, value);
      }
      if r.Failure? {
        return;
      }
      var after := state.SubRootHash(db);
      if after.Failure? {
        return Failure(after.error);
      }
    }

    method DropExisting(db: PrefixDB, near: Spec.KeyRange, idx: U64, hkey: Digest)
      returns (r: Result<(), Error>)
      requires db.Valid() && near.right < INDEX_LIMIT
      modifies state, db.raw`nodes, db.raw`staging
      ensures Ends(db, Spec.DropExisting(db.raw.h, mode, old(View(db)), near, idx, hkey), r)
    {
      hide Under, Lookup, Insert, ToBytes, Tree.AddLeaf, Tree.GetNode, Tree.RemoveLeaf;
      if idx >= INDEX_LIMIT {
        return Failure(Panic);
      }
      var path := GetLeafPath(idx, true);
      var prior := ParseNode(db, path.value);
      if prior.Failure? {
        return Failure(prior.error);
      }
      db.RemoveIndex(hkey);
      r := state.Remove(db, path.value);
      if r.Failure? {
        return;
      }
      r := EditLeaf(db, near.right, Spec.SetPrev(near.left));
    }

    method Remove(db: PrefixDB, key: Bytes) returns (r: Result<(), Error>)
      requires db.Valid()
      modifies state, db.raw`nodes, db.raw`staging
      ensures Ends(db, Spec.Remove(db.raw.h, mode, old(View(db)), key), r)
    {
      hide Spec.DropExisting, Spec.EditLeaf;
      var hkey := TrieHash(db.raw.h, key);
      if hkey.Failure? {
        return Failure(hkey.error);
      }
      var near := db.GetNearestKeys(state.rootHash, hkey.value);
      if near.None? {
        return Failure(Panic);
      }
      if near.value.center.None? {
        return Success(());
      }
      if near.value.left >= INDEX_LIMIT || near.value.right >= INDEX_LIMIT {
        return Failure(Panic);
      }
      r := EditLeaf(db, near.value.left, Spec.SetNext(near.value.right));
      if r.Failure? {
        return;
      }
      r := DropExisting(db, near.value, near.value.center.value.leafIndex, hkey.value);
    }

    method PutSentinel(db: PrefixDB, i: U64, o: LeafOpening, hkey: Word, leaf: Spec.FlattenedLeaf,
                       indexFirst: bool)
      returns (r: Result<(), Error>)
      requires db.Valid()
      modifies state, db.raw`nodes, db.raw`staging
      ensures var ix := Spec.UpdateIndex(old(db.Index()), hkey, leaf);
              var st := if indexFirst then old(View(db)).(index := ix) else old(View(db));
              Ends(db, Spec.PutSentinel(db.raw.h, st, i, o, ix), r)
    {
      hide Spec.WriteLeaf, Spec.IncrementFree;
      if indexFirst {
        db.UpdateIndex(hkey, leaf);
      }
      if i >= INDEX_LIMIT {
        return Failure(Panic);
      }
      r := WriteLeaf(db, i, ToBytes(o));
      if r.Failure? {
        return;
      }
      if !indexFirst {
        db.UpdateIndex(hkey, leaf);
      }
      r := IncrementFree(db);
    }

    method SetHeadAndTail(db: PrefixDB) returns (r: Result<(), Error>)
      requires db.Valid()
      modifies state, db.raw`nodes, db.raw`staging
      ensures Ends(db, Spec.SetHeadAndTail(db.raw.h, old(View(db))), r)
    {
      hide Spec.PutSentinel;
      var i := state.NextFree(db);
      if i.Failure? {
        return Failure(i.error);
      }
      r := PutSentinel(db, i.value, HEAD, HEAD_KEY, Spec.FLAT_HEAD, false);
      if r.Failure? {
        return;
      }
      var j := state.NextFree(db);
      if j.Failure? {
        return Failure(j.error);
      }
      r := PutSentinel(db, j.value, TAIL, TAIL_KEY, Spec.FLAT_TAIL, true);
    }
  }
}
