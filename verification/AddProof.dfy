/** Merkle account proofs: what `add_proof` accepts, what an accepted proof pins down, and which
    nodes it leaves in the store. */
module MerkleProofs {
  import opened Words
  import opened LeafPaths
  import opened Nodes
  import opened MerkleTree
  import opened SparseMerkle
  import opened ZkTrieSpec
  import opened TrieMachine
  import opened LinkedLeaves
  import opened Traces
  import opened Witness

  /** Root bytes, one sibling per level from the top down, and the leaf bytes. */
  type ProofBytes = seq<Bytes>

  const PROOF_LENGTH: nat := ZK_TRIE_DEPTH + 2

  /** Every entry has the shape its level calls for: 64 bytes for branches, hashable leaf bytes. */
  predicate Shaped(p: ProofBytes) {
    && |p| == PROOF_LENGTH
    && (forall i | 0 <= i < ZK_TRIE_DEPTH :: |p[i]| == 64)
    && Hashable(p[ZK_TRIE_DEPTH]) && Hashable(p[ZK_TRIE_DEPTH + 1])
  }

  /** The sibling supplied at height `e`: leaf bytes at the bottom, branch bytes above. */
  function SiblingNode(p: ProofBytes, e: nat): Node
    requires Shaped(p) && e < ZK_TRIE_DEPTH
  {
    if e == 0 then Leaf([VALUE_LEAF], p[ZK_TRIE_DEPTH])
    else ParseBranch(p[ZK_TRIE_DEPTH - e]).value
  }

  /** The node the proof computes at height `e` of the path. */
  function ProofNode(h: Hash, idx: nat, p: ProofBytes, e: nat): Node
    requires Shaped(p) && e <= ZK_TRIE_DEPTH
    decreases e, p
  {
    if e == 0 then Leaf([VALUE_LEAF], p[ZK_TRIE_DEPTH + 1])
    else Join(h, LeafPath(idx)[ZK_TRIE_DEPTH + 1 - e], ProofNode(h, idx, p, e - 1),
              NodeHash(h, SiblingNode(p, e - 1)))
  }

  function ProofRoot(p: ProofBytes): Node
    requires Shaped(p)
  {
    ParseBranch(p[0]).value
  }

  /** The nodes collected up to height `e`: each sibling and the branch above it, but not the leaf
      the climb starts from. */
  function Climbed(h: Hash, idx: nat, p: ProofBytes, e: nat): seq<Node>
    requires Shaped(p) && e <= ZK_TRIE_DEPTH
    decreases e, p
  {
    if e == 0 then []
    else Climbed(h, idx, p, e - 1) + [SiblingNode(p, e - 1), ProofNode(h, idx, p, e)]
  }

  /** The first thing wrong with a proof's shape, in the order the climb meets it. */
  function ShapeError(p: ProofBytes): Error {
    if |p| != PROOF_LENGTH then Panic
    else if |p[0]| != 64 then InvalidBranchNode
    else if !Hashable(p[ZK_TRIE_DEPTH + 1]) || !Hashable(p[ZK_TRIE_DEPTH]) then Panic
    else InvalidBranchNode
  }

  /** The nodes an accepted proof adds, the root last. */
  function CheckProof(h: Hash, idx: nat, p: ProofBytes): Result<seq<Node>, Error> {
    if idx >= INDEX_LIMIT then Failure(Panic)
    else if !Shaped(p) then Failure(ShapeError(p))
    else if NodeHash(h, ProofNode(h, idx, p, ZK_TRIE_DEPTH)) != ProofRoot(p).right then
      Failure(InvalidProof)
    else Success(Climbed(h, idx, p, ZK_TRIE_DEPTH) + [ProofRoot(p)])
  }

  method CheckProofLoop(h: Hash, idx: nat, p: ProofBytes) returns (r: Result<seq<Node>, Error>)
    ensures r == CheckProof(h, idx, p)
  {
    hide LeafPath, Join;
    var path := GetLeafPath(idx, true);
    if path.None? || |p| != |path.value| {
      return Failure(Panic);
    }
    var root := ParseBranch(p[0]);
    if root.Failure? {
      return Failure(root.error);
    }
    var out: seq<Node> := [];
    var leaf := Leaf([VALUE_LEAF], p[|p| - 1]);
    if !Buildable(leaf) {
      return Failure(Panic);
    }
    var i := |p| - 2;
    while i > 0
      invariant 0 <= i <= ZK_TRIE_DEPTH
      invariant i < ZK_TRIE_DEPTH ==> Hashable(p[ZK_TRIE_DEPTH])
      invariant forall k | i < k < ZK_TRIE_DEPTH :: |p[k]| == 64
      invariant Shaped(p) ==> leaf == ProofNode(h, idx, p, ZK_TRIE_DEPTH - i)
      invariant Shaped(p) ==> out == Climbed(h, idx, p, ZK_TRIE_DEPTH - i)
    {
      var sibling: Node;
      if i == ZK_TRIE_DEPTH {
        sibling := Leaf([VALUE_LEAF], p[i]);
        if !Buildable(sibling) {
          return Failure(Panic);
        }
      } else {
        var parsed := ParseBranch(p[i]);
        if parsed.Failure? {
          return Failure(parsed.error);
        }
        sibling := parsed.value;
      }
      assert Shaped(p) ==> sibling == SiblingNode(p, ZK_TRIE_DEPTH - i);
      leaf := Join(h, path.value[i], leaf, NodeHash(h, sibling));
      out := out + [sibling, leaf];
      i := i - 1;
    }
    assert Shaped(p);
    if NodeHash(h, leaf) != root.value.right {
      return Failure(InvalidProof);
    }
    return Success(out + [root.value]);
  }

  /** The store, the answer table and the returned root hash after `add_proof`. */
  datatype Added = Added(store: Store, table: Table, root: Word)

  function AddProof(h: Hash, s: Store, table: Table, idx: U64, hkey: Word, value: Option<Bytes>,
                    p: ProofBytes): Result<Added, Error>
  {
    match CheckProof(h, idx, p)
    case Failure(e) => Failure(e)
    case Success(nodes) =>
      var root := NodeHash(h, ProofRoot(p));
      if (root, hkey) in table then Success(Added(InsertAll(h, s, nodes), table, root))
      else if value.None? then Failure(Panic)
      else
        var answer := KeyRange(0, Some(FlattenedLeaf(idx, value.value)), 0);
        Success(Added(InsertAll(h, s, nodes), table[(root, hkey) := answer], root))
  }

  // ----- soundness -----

  /** Every byte string the proof hashes on the way up, and every one on the trie's own path. */
  ghost predicate ProofInUse(h: Hash, idx: nat, p: ProofBytes, free: U64, slots: Slots,
                             inUse: iset<Bytes>)
    requires Shaped(p)
  {
    && Preimage(ProofRoot(p)) in inUse && Preimage(CanonTop(h, free, slots)) in inUse
    && (forall e | 0 <= e <= ZK_TRIE_DEPTH :: Preimage(ProofNode(h, idx, p, e)) in inUse)
    && (forall e | 0 <= e <= ZK_TRIE_DEPTH :: OnPathInUse(h, idx, slots, inUse, e))
  }

  ghost predicate OnPathInUse(h: Hash, idx: nat, slots: Slots, inUse: iset<Bytes>, e: nat) {
    var n := CanonNode(h, e, Halve(e, idx), slots);
    n != EmptyLeaf ==> Preimage(n) in inUse
  }

  /** One level of descent: equal digests of branches mean equal children on the path. */
  lemma ChildOnPath(h: Hash, idx: nat, p: ProofBytes, slots: Slots, inUse: iset<Bytes>, e: nat)
    requires Shaped(p) && e < ZK_TRIE_DEPTH && CollisionFree(h, inUse)
    requires Preimage(ProofNode(h, idx, p, e + 1)) in inUse && OnPathInUse(h, idx, slots, inUse, e + 1)
    requires NodeHash(h, ProofNode(h, idx, p, e + 1)) == Canon(h, e + 1, Halve(e + 1, idx), slots)
    ensures NodeHash(h, ProofNode(h, idx, p, e)) == Canon(h, e, Halve(e, idx), slots)
  {
    hide LeafPath, SiblingNode, Shaped;
    var mine, theirs := ProofNode(h, idx, p, e + 1), CanonNode(h, e + 1, Halve(e + 1, idx), slots);
    CanonIsHash(h, e + 1, Halve(e + 1, idx), slots);
    assert mine.Branch? && theirs.Branch?;
    assert Preimage(mine) == Preimage(theirs);
    Be32PairInjective(mine.left, mine.right, theirs.left, theirs.right);
    PathByte(idx, e + 1);
  }

  lemma {:induction false} DigestsAgree(h: Hash, idx: nat, p: ProofBytes, free: U64, slots: Slots,
                                        inUse: iset<Bytes>, e: nat)
    requires Shaped(p) && e <= ZK_TRIE_DEPTH && CollisionFree(h, inUse)
    requires ProofInUse(h, idx, p, free, slots, inUse)
    requires NodeHash(h, ProofNode(h, idx, p, ZK_TRIE_DEPTH))
          == Canon(h, ZK_TRIE_DEPTH, Halve(ZK_TRIE_DEPTH, idx), slots)
    ensures NodeHash(h, ProofNode(h, idx, p, e)) == Canon(h, e, Halve(e, idx), slots)
    decreases ZK_TRIE_DEPTH - e
  {
    hide ProofNode, Canon, Shaped, OnPathInUse, CollisionFree;
    if e < ZK_TRIE_DEPTH {
      DigestsAgree(h, idx, p, free, slots, inUse, e + 1);
      assert OnPathInUse(h, idx, slots, inUse, e + 1);
      ChildOnPath(h, idx, p, slots, inUse, e);
    }
  }

  /** Soundness: an accepted proof whose root hash is the trie's carries exactly the leaf bytes the
      trie stores at that index; in particular there is a leaf there. */
  lemma ProofIsSound(h: Hash, idx: nat, p: ProofBytes, free: U64, slots: Slots, inUse: iset<Bytes>)
    requires CheckProof(h, idx, p).Success? && NodeHash(h, ProofRoot(p)) == TopRoot(h, free, slots)
    requires CollisionFree(h, inUse) && ProofInUse(h, idx, p, free, slots, inUse)
    ensures idx in slots && slots[idx] == p[ZK_TRIE_DEPTH + 1]
    ensures ProofRoot(p) == CanonTop(h, free, slots)
  {
    hide ProofNode, CanonNode, Climbed;
    IndexHasPath(idx);
    var mine, theirs := ProofRoot(p), CanonTop(h, free, slots);
    Be32PairInjective(mine.left, mine.right, theirs.left, theirs.right);
    DigestsAgree(h, idx, p, free, slots, inUse, 0);
    LeafDigests(h, idx, p, slots, inUse);
  }

  lemma LeafDigests(h: Hash, idx: nat, p: ProofBytes, slots: Slots, inUse: iset<Bytes>)
    requires Shaped(p) && CollisionFree(h, inUse)
    requires NodeHash(h, ProofNode(h, idx, p, 0)) == Canon(h, 0, Halve(0, idx), slots)
    requires Preimage(ProofNode(h, idx, p, 0)) in inUse && OnPathInUse(h, idx, slots, inUse, 0)
    ensures idx in slots && slots[idx] == p[ZK_TRIE_DEPTH + 1]
  {
  }

  // ----- completeness -----

  /** What an honest prover sends: the bytes of the top node, of the sibling at each level from the
      top down, and of the leaf. An empty leaf has no bytes. */
  function HonestProof(h: Hash, free: U64, slots: Slots, idx: nat): (p: ProofBytes)
    ensures |p| == PROOF_LENGTH
  {
    [Preimage(CanonTop(h, free, slots))]
    + seq(ZK_TRIE_DEPTH, i requires 0 <= i < ZK_TRIE_DEPTH =>
        SiblingBytes(h, slots, idx, ZK_TRIE_DEPTH - 1 - i))
    + [LeafBytes(slots, idx)]
  }

  function LeafBytes(slots: Slots, idx: nat): Bytes {
    if idx in slots then slots[idx] else []
  }

  function SiblingBytes(h: Hash, slots: Slots, idx: nat, e: nat): Bytes {
    if e == 0 then LeafBytes(slots, Beside(idx))
    else Preimage(CanonNode(h, e, Beside(Halve(e, idx)), slots))
  }

  lemma HonestEntries(h: Hash, free: U64, slots: Slots, idx: nat)
    ensures var p := HonestProof(h, free, slots, idx);
            && p[0] == Preimage(CanonTop(h, free, slots)) && |p[0]| == 64
            && p[ZK_TRIE_DEPTH + 1] == LeafBytes(slots, idx)
            && p[ZK_TRIE_DEPTH] == LeafBytes(slots, Beside(idx))
            && (forall e | 0 <= e < ZK_TRIE_DEPTH :: p[ZK_TRIE_DEPTH - e] == SiblingBytes(h, slots, idx, e))
  {
    hide SiblingBytes, LeafBytes, CanonTop;
    var p := HonestProof(h, free, slots, idx);
    forall e | 0 <= e < ZK_TRIE_DEPTH
      ensures p[ZK_TRIE_DEPTH - e] == SiblingBytes(h, slots, idx, e)
    {
      assert ZK_TRIE_DEPTH - 1 - (ZK_TRIE_DEPTH - e - 1) == e;
    }
    SiblingBytesEnds(h, slots, idx, 0);
    TopBytes(h, free, slots);
  }

  lemma SiblingBytesEnds(h: Hash, slots: Slots, idx: nat, e: nat)
    ensures e == 0 ==> SiblingBytes(h, slots, idx, e) == LeafBytes(slots, Beside(idx))
    ensures e > 0 ==> |SiblingBytes(h, slots, idx, e)| == 64
  {
  }

  lemma TopBytes(h: Hash, free: U64, slots: Slots)
    ensures |Preimage(CanonTop(h, free, slots))| == 64
  {
  }

  lemma HonestShape(h: Hash, free: U64, slots: Slots, idx: nat)
    requires forall i | i in slots :: Hashable(slots[i])
    ensures Shaped(HonestProof(h, free, slots, idx)) <==> idx in slots && Beside(idx) in slots
    ensures !(idx in slots && Beside(idx) in slots) ==>
              ShapeError(HonestProof(h, free, slots, idx)) == Panic
  {
    hide HonestProof, SiblingBytes, CanonTop;
    var p := HonestProof(h, free, slots, idx);
    HonestEntries(h, free, slots, idx);
    forall i | 0 < i < ZK_TRIE_DEPTH
      ensures |p[i]| == 64
    {
      assert p[ZK_TRIE_DEPTH - (ZK_TRIE_DEPTH - i)] == SiblingBytes(h, slots, idx, ZK_TRIE_DEPTH - i);
      SiblingBytesEnds(h, slots, idx, ZK_TRIE_DEPTH - i);
    }
  }

  /** Parsing a branch's bytes gives the branch back. */
  lemma ParseOfPreimage(n: Node)
    requires n.Branch?
    ensures ParseBranch(Preimage(n)) == Success(n)
  {
    var buf := Preimage(n);
    assert buf[..32] == Be32(n.left) && buf[32..] == Be32(n.right);
    ToWordOfBe32(n.left);
    ToWordOfBe32(n.right);
  }

  lemma HonestSibling(h: Hash, free: U64, slots: Slots, idx: nat, e: nat)
    requires Shaped(HonestProof(h, free, slots, idx)) && e < ZK_TRIE_DEPTH
    requires idx in slots && Beside(idx) in slots
    ensures SiblingNode(HonestProof(h, free, slots, idx), e)
         == CanonNode(h, e, Beside(Halve(e, idx)), slots)
  {
    hide HonestProof, CanonTop;
    HonestEntries(h, free, slots, idx);
    assert HonestProof(h, free, slots, idx)[ZK_TRIE_DEPTH - e] == SiblingBytes(h, slots, idx, e);
    if e > 0 {
      ParseOfPreimage(CanonNode(h, e, Beside(Halve(e, idx)), slots));
    }
  }

  lemma HalveNone(idx: nat)
    ensures Halve(0, idx) == idx
  {
  }

  lemma ProofNodeStep(h: Hash, idx: nat, p: ProofBytes, e: nat)
    requires Shaped(p) && e <= ZK_TRIE_DEPTH
    ensures ProofNode(h, idx, p, e) ==
              if e == 0 then Leaf([VALUE_LEAF], p[ZK_TRIE_DEPTH + 1])
              else Join(h, LeafPath(idx)[ZK_TRIE_DEPTH - (e - 1)], ProofNode(h, idx, p, e - 1),
                        NodeHash(h, SiblingNode(p, e - 1)))
  {
    hide Join, LeafPath, SiblingNode;
  }

  lemma {:induction false} HonestNodes(h: Hash, free: U64, slots: Slots, idx: nat, e: nat)
    requires Shaped(HonestProof(h, free, slots, idx)) && e <= ZK_TRIE_DEPTH
    requires idx in slots && Beside(idx) in slots
    ensures ProofNode(h, idx, HonestProof(h, free, slots, idx), e) == CanonNode(h, e, Halve(e, idx), slots)
  {
    hide HonestProof, CanonTop, SiblingNode, LeafPath, Join, Shaped, ProofNode, Halve;
    ProofNodeStep(h, idx, HonestProof(h, free, slots, idx), e);
    if e == 0 {
      HonestEntries(h, free, slots, idx);
      HalveNone(idx);
    } else {
      HonestNodes(h, free, slots, idx, e - 1);
      HonestSibling(h, free, slots, idx, e - 1);
      JoinIsCanon(h, idx, slots, e - 1);
      CanonIsHash(h, e - 1, Beside(Halve(e - 1, idx)), slots);
      assert SiblingsOf(h, idx, slots)[e - 1] == Canon(h, e - 1, Beside(Halve(e - 1, idx)), slots);
    }
  }

  /** The honest proof of `idx`, an empty leaf being sent as no bytes, is accepted if and only if both the
      leaf and its immediate neighbour in the tree are present; no bytes cannot be hashed. */
  lemma HonestAcceptedIff(h: Hash, free: U64, slots: Slots, idx: nat)
    requires idx < INDEX_LIMIT && forall i | i in slots :: Hashable(slots[i])
    ensures CheckProof(h, idx, HonestProof(h, free, slots, idx)).Success?
       <==> idx in slots && Beside(idx) in slots
    ensures !(idx in slots && Beside(idx) in slots) ==>
              CheckProof(h, idx, HonestProof(h, free, slots, idx)) == Failure(Panic)
  {
    hide ProofNode, Climbed, CanonNode, Halve, HonestProof, Shaped, ShapeError;
    var p := HonestProof(h, free, slots, idx);
    HonestShape(h, free, slots, idx);
    HonestEntries(h, free, slots, idx);
    IndexHasPath(idx);
    if idx in slots && Beside(idx) in slots {
      HonestNodes(h, free, slots, idx, ZK_TRIE_DEPTH);
      ParseOfPreimage(CanonTop(h, free, slots));
    }
  }

  // ----- every accepted proof -----

  /** Every byte string a proof hashes: root, siblings, and each node of the climb. */
  ghost predicate ProofHashes(h: Hash, idx: nat, p: ProofBytes, inUse: iset<Bytes>)
    requires Shaped(p)
  {
    && Preimage(ProofRoot(p)) in inUse
    && (forall e | 0 <= e <= ZK_TRIE_DEPTH :: Preimage(ProofNode(h, idx, p, e)) in inUse)
    && (forall e | 0 <= e < ZK_TRIE_DEPTH :: Preimage(SiblingNode(p, e)) in inUse)
  }

  /** `add_proof` accepts `p`, for the trie's root, and hashes only bytes in use. */
  ghost predicate Accepted(h: Hash, free: U64, slots: Slots, idx: nat, p: ProofBytes, inUse: iset<Bytes>) {
    && CheckProof(h, idx, p).Success? && NodeHash(h, ProofRoot(p)) == TopRoot(h, free, slots)
    && ProofHashes(h, idx, p, inUse)
  }

  ghost predicate BesideInUse(h: Hash, idx: nat, slots: Slots, inUse: iset<Bytes>, e: nat) {
    var n := CanonNode(h, e, Beside(Halve(e, idx)), slots);
    n != EmptyLeaf ==> Preimage(n) in inUse
  }

  /** The path and its siblings are among the nodes of the tree. */
  lemma {:induction false} PathAndSiblings(h: Hash, d: nat, idx: nat, slots: Slots, inUse: iset<Bytes>)
    requires TreeInUse(h, d, Halve(d, idx), slots, inUse)
    ensures forall e: nat | e <= d :: OnPathInUse(h, idx, slots, inUse, e)
    ensures forall e: nat | e < d :: BesideInUse(h, idx, slots, inUse, e)
    decreases d
  {
    hide CanonNode;
    RootBytesInUse(h, d, Halve(d, idx), slots, inUse);
    if d > 0 {
      HalveStep(d - 1, idx);
      PathAndSiblings(h, d - 1, idx, slots, inUse);
      RootBytesInUse(h, d - 1, Beside(Halve(d - 1, idx)), slots, inUse);
    }
  }

  lemma RootBytesInUse(h: Hash, d: nat, lo: nat, slots: Slots, inUse: iset<Bytes>)
    requires TreeInUse(h, d, lo, slots, inUse)
    ensures CanonNode(h, d, lo, slots) != EmptyLeaf ==> Preimage(CanonNode(h, d, lo, slots)) in inUse
  {
  }

  /** Beside equal digests on the path stand equal digests of the siblings. */
  lemma SiblingDigest(h: Hash, idx: nat, p: ProofBytes, slots: Slots, inUse: iset<Bytes>, e: nat)
    requires Shaped(p) && e < ZK_TRIE_DEPTH && CollisionFree(h, inUse)
    requires Preimage(ProofNode(h, idx, p, e + 1)) in inUse && OnPathInUse(h, idx, slots, inUse, e + 1)
    requires NodeHash(h, ProofNode(h, idx, p, e + 1)) == Canon(h, e + 1, Halve(e + 1, idx), slots)
    ensures NodeHash(h, SiblingNode(p, e)) == Canon(h, e, Beside(Halve(e, idx)), slots)
  {
    hide LeafPath, SiblingNode, Shaped;
    var mine, theirs := ProofNode(h, idx, p, e + 1), CanonNode(h, e + 1, Halve(e + 1, idx), slots);
    CanonIsHash(h, e + 1, Halve(e + 1, idx), slots);
    assert mine.Branch? && theirs.Branch?;
    assert Preimage(mine) == Preimage(theirs);
    Be32PairInjective(mine.left, mine.right, theirs.left, theirs.right);
    PathByte(idx, e + 1);
  }

  /** Equal digests of siblings mean equal bytes; at the bottom, that there is a leaf. */
  lemma SiblingEntry(h: Hash, idx: nat, p: ProofBytes, slots: Slots, inUse: iset<Bytes>, e: nat)
    requires Shaped(p) && e < ZK_TRIE_DEPTH && CollisionFree(h, inUse)
    requires Preimage(SiblingNode(p, e)) in inUse && BesideInUse(h, idx, slots, inUse, e)
    requires NodeHash(h, SiblingNode(p, e)) == Canon(h, e, Beside(Halve(e, idx)), slots)
    ensures p[ZK_TRIE_DEPTH - e] == SiblingBytes(h, slots, idx, e)
    ensures e == 0 ==> Beside(idx) in slots
  {
    hide Halve, Canon;
    CanonIsHash(h, e, Beside(Halve(e, idx)), slots);
    SiblingPreimage(p, e);
    HalveNone(idx);
  }

  lemma SiblingPreimage(p: ProofBytes, e: nat)
    requires Shaped(p) && e < ZK_TRIE_DEPTH
    ensures Preimage(SiblingNode(p, e)) == p[ZK_TRIE_DEPTH - e]
  {
    assert e > 0 ==> |p[ZK_TRIE_DEPTH - e]| == 64;
  }

  lemma AcceptedEntry(h: Hash, free: U64, slots: Slots, idx: nat, p: ProofBytes, inUse: iset<Bytes>, e: nat)
    requires Accepted(h, free, slots, idx, p, inUse) && e < ZK_TRIE_DEPTH
    requires CollisionFree(h, inUse) && ProofInUse(h, idx, p, free, slots, inUse)
    requires BesideInUse(h, idx, slots, inUse, e) && ProofRoot(p) == CanonTop(h, free, slots)
    ensures p[ZK_TRIE_DEPTH - e] == SiblingBytes(h, slots, idx, e)
    ensures e == 0 ==> Beside(idx) in slots
  {
    hide ProofNode, SiblingNode, CanonNode, Climbed, SiblingBytes, OnPathInUse, BesideInUse, CollisionFree, Shaped,
      Canon;
    IndexHasPath(idx);
    DigestsAgree(h, idx, p, free, slots, inUse, e + 1);
    assert OnPathInUse(h, idx, slots, inUse, e + 1);
    SiblingDigest(h, idx, p, slots, inUse, e);
    SiblingEntry(h, idx, p, slots, inUse, e);
  }

  lemma SameProof(h: Hash, free: U64, slots: Slots, idx: nat, p: ProofBytes)
    requires |p| == PROOF_LENGTH && p[0] == Preimage(CanonTop(h, free, slots))
    requires p[ZK_TRIE_DEPTH + 1] == LeafBytes(slots, idx)
    requires forall e | 0 <= e < ZK_TRIE_DEPTH :: p[ZK_TRIE_DEPTH - e] == SiblingBytes(h, slots, idx, e)
    ensures p == HonestProof(h, free, slots, idx)
  {
    hide SiblingBytes, LeafBytes, CanonTop, HonestProof;
    HonestEntries(h, free, slots, idx);
    var q := HonestProof(h, free, slots, idx);
    forall i | 0 <= i < |p|
      ensures p[i] == q[i]
    {
      if 0 < i <= ZK_TRIE_DEPTH {
        var e := ZK_TRIE_DEPTH - i;
        assert p[ZK_TRIE_DEPTH - e] == SiblingBytes(h, slots, idx, e) == q[ZK_TRIE_DEPTH - e];
      }
    }
  }

  /** Nothing is accepted but the honest proof: an accepted proof with the trie's root is, byte for byte,
      the one an honest prover sends, and both the leaf and its immediate neighbour are there. */
  lemma AcceptedIsHonest(h: Hash, free: U64, slots: Slots, idx: nat, p: ProofBytes, inUse: iset<Bytes>)
    requires Accepted(h, free, slots, idx, p, inUse)
    requires CollisionFree(h, inUse) && ContentsInUse(h, free, slots, inUse)
    ensures idx in slots && Beside(idx) in slots && p == HonestProof(h, free, slots, idx)
  {
    hide ProofNode, SiblingNode, CanonNode, Canon, Climbed, HonestProof, SiblingBytes, OnPathInUse, BesideInUse,
      CollisionFree, TreeInUse, Halve;
    IndexHasPath(idx);
    PathAndSiblings(h, ZK_TRIE_DEPTH, idx, slots, inUse);
    ProofIsSound(h, idx, p, free, slots, inUse);
    forall e: nat | e < ZK_TRIE_DEPTH
      ensures p[ZK_TRIE_DEPTH - e] == SiblingBytes(h, slots, idx, e) && (e == 0 ==> Beside(idx) in slots)
    {
      assert BesideInUse(h, idx, slots, inUse, e);
      AcceptedEntry(h, free, slots, idx, p, inUse, e);
    }
    assert SiblingBytes(h, slots, idx, 0) == p[ZK_TRIE_DEPTH - 0];
    RootPreimage(p);
    SameProof(h, free, slots, idx, p);
  }

  lemma RootPreimage(p: ProofBytes)
    requires Shaped(p)
    ensures Preimage(ProofRoot(p)) == p[0]
  {
  }

  /** What the honest proof hashes is what the tree hashes. */
  lemma HonestHashes(h: Hash, free: U64, slots: Slots, idx: nat, inUse: iset<Bytes>)
    requires idx < INDEX_LIMIT && idx in slots && Beside(idx) in slots && ContentsInUse(h, free, slots, inUse)
    requires Shaped(HonestProof(h, free, slots, idx))
    ensures ProofHashes(h, idx, HonestProof(h, free, slots, idx), inUse)
    ensures ProofRoot(HonestProof(h, free, slots, idx)) == CanonTop(h, free, slots)
  {
    hide ProofNode, SiblingNode, CanonNode, HonestProof, Shaped, Halve, TreeInUse, Canon;
    var p := HonestProof(h, free, slots, idx);
    IndexHasPath(idx);
    PathAndSiblings(h, ZK_TRIE_DEPTH, idx, slots, inUse);
    HonestEntries(h, free, slots, idx);
    ParseOfPreimage(CanonTop(h, free, slots));
    forall e: nat | e <= ZK_TRIE_DEPTH
      ensures Preimage(ProofNode(h, idx, p, e)) in inUse
    {
      HonestNodes(h, free, slots, idx, e);
      assert OnPathInUse(h, idx, slots, inUse, e);
      PresentPath(h, idx, slots, e);
    }
    forall e: nat | e < ZK_TRIE_DEPTH
      ensures Preimage(SiblingNode(p, e)) in inUse
    {
      HonestSibling(h, free, slots, idx, e);
      assert BesideInUse(h, idx, slots, inUse, e);
      PresentPath(h, idx, slots, e);
    }
  }

  lemma PresentPath(h: Hash, idx: nat, slots: Slots, e: nat)
    requires idx in slots && Beside(idx) in slots
    ensures CanonNode(h, e, Halve(e, idx), slots) != EmptyLeaf
    ensures CanonNode(h, e, Beside(Halve(e, idx)), slots) != EmptyLeaf
  {
  }

  /** Completeness, whatever form an empty leaf travels in: some proof of `idx` for the trie's root is
      accepted if and only if both the leaf and its immediate neighbour in the tree are present. */
  lemma AcceptedIff(h: Hash, free: U64, slots: Slots, idx: nat, inUse: iset<Bytes>)
    requires idx < INDEX_LIMIT && (forall i | i in slots :: Hashable(slots[i]))
    requires CollisionFree(h, inUse) && ContentsInUse(h, free, slots, inUse)
    ensures (exists p :: Accepted(h, free, slots, idx, p, inUse)) <==> idx in slots && Beside(idx) in slots
  {
    hide Accepted, ContentsInUse, CollisionFree, HonestProof;
    forall p | Accepted(h, free, slots, idx, p, inUse)
      ensures idx in slots && Beside(idx) in slots
    {
      AcceptedIsHonest(h, free, slots, idx, p, inUse);
    }
    if idx in slots && Beside(idx) in slots {
      HonestIsAccepted(h, free, slots, idx, inUse);
    }
  }

  lemma HonestIsAccepted(h: Hash, free: U64, slots: Slots, idx: nat, inUse: iset<Bytes>)
    requires idx < INDEX_LIMIT && (forall i | i in slots :: Hashable(slots[i]))
    requires idx in slots && Beside(idx) in slots && ContentsInUse(h, free, slots, inUse)
    ensures Accepted(h, free, slots, idx, HonestProof(h, free, slots, idx), inUse)
  {
    hide ContentsInUse, HonestProof, ProofHashes, ProofNode, Climbed, Shaped, ShapeError, Canon;
    HonestAcceptedIff(h, free, slots, idx);
    HonestHashes(h, free, slots, idx, inUse);
  }

  /** The code reaches the failing case at once: after the first insertion the new leaf, at index 2, has
      no neighbour at index 3. No proof of it is accepted, and the honest one is met with a panic. */
  lemma FirstLeafUnprovable(h: Hash, m: Mode, key: Bytes, value: Bytes, inUse: iset<Bytes>)
    requires Hashable(key) && Hashable(value) && KeyOk(h, PutOp(key, value))
    ensures PlanOf(h, m, EMPTY, PutOp(key, value)).Some?
    ensures var b := LastOf(EMPTY, PlanOf(h, m, EMPTY, PutOp(key, value)).value.steps);
            && 2 in b.slots && 3 !in b.slots
            && CheckProof(h, 2, HonestProof(h, b.free, Enc(b.slots), 2)) == Failure(Panic)
            && (CollisionFree(h, inUse) && AbsInUse(h, b, inUse) ==>
                  forall p :: !Accepted(h, b.free, Enc(b.slots), 2, p, inUse))
  {
    hide CheckProof, HonestProof, ToBytes, NearestTo, Accepted, ContentsInUse, CollisionFree;
    EmptyIsValid(h);
    PlanExists(h, m, EMPTY, PutOp(key, value));
    var near, below, above := NearestExists(h, EMPTY, h(key));
    var b := LastOf(EMPTY, PlanOf(h, m, EMPTY, PutOp(key, value)).value.steps);
    assert b.slots.Keys == {0, 1, 2};
    EncHashable(b.slots);
    HonestAcceptedIff(h, b.free, Enc(b.slots), 2);
    if CollisionFree(h, inUse) && AbsInUse(h, b, inUse) {
      AcceptedIff(h, b.free, Enc(b.slots), 2, inUse);
    }
  }

  lemma EncHashable(slots: LeafSlots)
    ensures forall i | i in Enc(slots) :: Hashable(Enc(slots)[i])
  {
  }

  // ----- what is left in the store -----

  lemma {:induction false} ClimbedHas(h: Hash, idx: nat, p: ProofBytes, top: nat, e: nat)
    requires Shaped(p) && 1 <= e <= top <= ZK_TRIE_DEPTH
    ensures ProofNode(h, idx, p, e) in Climbed(h, idx, p, top)
    decreases top
  {
    hide ProofNode, SiblingNode, Shaped;
    if e < top {
      ClimbedHas(h, idx, p, top - 1, e);
    }
  }

  /** The siblings of one path are among the nodes of the tree. */
  lemma {:induction false} SiblingsInUse(h: Hash, d: nat, idx: nat, slots: Slots, inUse: iset<Bytes>)
    requires TreeInUse(h, d, Halve(d, idx), slots, inUse) && Sized(slots)
    ensures forall e: nat | e < d :: NodeInUse(CanonNode(h, e, Beside(Halve(e, idx)), slots), inUse)
    decreases d
  {
    hide Sized, NodeInUse, CanonNode;
    if d > 0 {
      HalveStep(d - 1, idx);
      SiblingsInUse(h, d - 1, idx, slots, inUse);
      RootInUse(h, d - 1, Beside(Halve(d - 1, idx)), slots, inUse);
    }
  }

  lemma RootInUse(h: Hash, d: nat, lo: nat, slots: Slots, inUse: iset<Bytes>)
    requires TreeInUse(h, d, lo, slots, inUse) && Sized(slots)
    ensures NodeInUse(CanonNode(h, d, lo, slots), inUse)
  {
    if d == 0 {
      LeafInUse(h, lo, slots, inUse);
    }
  }

  /** Every node an honest proof adds is one of the tree's. */
  lemma {:induction false} ClimbedInUse(h: Hash, free: U64, slots: Slots, idx: nat, e: nat, inUse: iset<Bytes>)
    requires Shaped(HonestProof(h, free, slots, idx)) && idx in slots && Beside(idx) in slots
    requires PathInUse(h, ZK_TRIE_DEPTH, idx, slots, inUse) && e <= ZK_TRIE_DEPTH
    requires forall d: nat | d < ZK_TRIE_DEPTH :: NodeInUse(CanonNode(h, d, Beside(Halve(d, idx)), slots), inUse)
    ensures AllInUse(Climbed(h, idx, HonestProof(h, free, slots, idx), e), inUse)
    decreases e
  {
    hide ProofNode, SiblingNode, Shaped, HonestProof, CanonNode, NodeInUse;
    if e > 0 {
      ClimbedInUse(h, free, slots, idx, e - 1, inUse);
      HonestSibling(h, free, slots, idx, e - 1);
      HonestNodes(h, free, slots, idx, e);
    }
  }

  /** After any accepted proof for the trie's root a sound store is sound still, and resolves the top node
      and every branch of the path; the leaf itself is not stored, so the path resolves to the bottom if
      and only if the leaf node was known from elsewhere. */
  lemma ProofResolvesBranches(h: Hash, s: Store, free: U64, slots: Slots, idx: nat, p: ProofBytes,
                              inUse: iset<Bytes>)
    requires Sound(h, s, inUse) && Sized(slots) && ContentsInUse(h, free, slots, inUse)
    requires Accepted(h, free, slots, idx, p, inUse)
    ensures var s' := InsertAll(h, s, CheckProof(h, idx, p).value);
            && Sound(h, s', inUse) && Extends(h, s, s') && TopIn(h, s', free, slots)
            && (forall e | 1 <= e <= ZK_TRIE_DEPTH :: NodeIn(h, s', e, idx, slots))
            && (LeafIn(h, s', idx, slots) <==> NodeIn(h, s', 0, idx, slots))
  {
    hide ProofNode, Climbed, CanonNode, Canon, Halve, Lookup, LeafPath, HonestProof, Shaped, PathIn,
      Extends, InsertAll, Sized, TreeInUse, NodeInUse, CollisionFree, EmptyInUse, ProofHashes;
    AcceptedIsHonest(h, free, slots, idx, p, inUse);
    hide Sound;
    var nodes := CheckProof(h, idx, p).value;
    var s' := InsertAll(h, s, nodes);
    HonestEntries(h, free, slots, idx);
    ParseOfPreimage(CanonTop(h, free, slots));
    IndexHasPath(idx);
    TreePathInUse(h, ZK_TRIE_DEPTH, idx, slots, inUse);
    SiblingsInUse(h, ZK_TRIE_DEPTH, idx, slots, inUse);
    ClimbedInUse(h, free, slots, idx, ZK_TRIE_DEPTH, inUse);
    TopInUse(h, free, slots, inUse);
    InsertAllResolves(h, s, nodes, inUse);
    assert ProofRoot(p) in nodes;
    forall e | 1 <= e <= ZK_TRIE_DEPTH
      ensures NodeIn(h, s', e, idx, slots)
    {
      HonestNodes(h, free, slots, idx, e);
      ClimbedHas(h, idx, p, ZK_TRIE_DEPTH, e);
      CanonIsHash(h, e, Halve(e, idx), slots);
    }
    PathFromParts(h, s', idx, slots);
  }

  lemma TopInUse(h: Hash, free: U64, slots: Slots, inUse: iset<Bytes>)
    requires ContentsInUse(h, free, slots, inUse)
    ensures NodeInUse(CanonTop(h, free, slots), inUse)
  {
    hide Canon, TreeInUse;
  }

  // ----- what add_proof leaves behind -----

  /** What `add_proof` answers from then on. A question not yet recorded at the returned root is answered
      with the value handed in, which nothing compares with the leaf; one already recorded keeps its answer,
      and so does every other. Without a value a new question panics. */
  lemma ProofAnswers(h: Hash, s: Store, table: Table, staging: Leaves, idx: U64, key: Bytes, value: Option<Bytes>,
                     p: ProofBytes)
    requires CheckProof(h, idx, p).Success? && Hashable(key)
    ensures var r, root := AddProof(h, s, table, idx, h(key), value, p), NodeHash(h, ProofRoot(p));
            && (r.Failure? <==> (root, h(key)) !in table && value.None?) && (r.Failure? ==> r.error == Panic)
            && (r.Success? ==>
                  var st := State(root, [root], r.value.store, Recorded(r.value.table, staging));
                  && r.value.root == root
                  && Read(h, st, key) == (if (root, h(key)) !in table then Success(value)
                                          else Read(h, st.(index := Recorded(table, staging)), key))
                  && (forall q | q in table :: q in r.value.table && r.value.table[q] == table[q])
                  && (forall q | q in r.value.table && q !in table :: q == (root, h(key))))
  {
    hide CheckProof, ProofRoot, InsertAll, NodeHash;
  }

  /** The leaf index recorded is that of the proof; neighbours are not known and recorded as 0. */
  lemma ProofRange(h: Hash, s: Store, table: Table, staging: Leaves, idx: U64, key: Bytes, value: Bytes, p: ProofBytes)
    requires CheckProof(h, idx, p).Success? && (NodeHash(h, ProofRoot(p)), h(key)) !in table
    ensures var r := AddProof(h, s, table, idx, h(key), Some(value), p);
            && r.Success?
            && Nearest(Recorded(r.value.table, staging), r.value.root, h(key))
               == Some(KeyRange(HEAD_INDEX, Some(FlattenedLeaf(idx, value)), HEAD_INDEX))
  {
    hide CheckProof, ProofRoot, InsertAll, NodeHash;
  }

  /** After an accepted proof `add_proof` returns the trie's root, and the store it leaves is sound, forgets
      nothing and resolves the top node and every branch of the path. */
  lemma AddProofResolves(h: Hash, s: Store, table: Table, free: U64, slots: Slots, idx: U64, hkey: Word,
                         value: Option<Bytes>, p: ProofBytes, inUse: iset<Bytes>)
    requires Sound(h, s, inUse) && Sized(slots) && ContentsInUse(h, free, slots, inUse)
    requires Accepted(h, free, slots, idx, p, inUse)
    ensures var r := AddProof(h, s, table, idx, hkey, value, p);
            r.Success? ==>
              && r.value.root == TopRoot(h, free, slots)
              && Sound(h, r.value.store, inUse) && Extends(h, s, r.value.store) && TopIn(h, r.value.store, free, slots)
              && (forall e | 1 <= e <= ZK_TRIE_DEPTH :: NodeIn(h, r.value.store, e, idx, slots))
              && (LeafIn(h, r.value.store, idx, slots) <==> NodeIn(h, r.value.store, 0, idx, slots))
  {
    hide InsertAll, Sound, ContentsInUse, Sized, TopIn, NodeIn, LeafIn, Extends, ProofHashes, AddProof, CheckProof,
      NodeHash, TopRoot;
    ProofResolvesBranches(h, s, free, slots, idx, p, inUse);
    AddedNodes(h, s, table, idx, hkey, value, p);
  }

  lemma AddedNodes(h: Hash, s: Store, table: Table, idx: U64, hkey: Word, value: Option<Bytes>, p: ProofBytes)
    requires CheckProof(h, idx, p).Success?
    ensures var r := AddProof(h, s, table, idx, hkey, value, p);
            r.Success? ==>
              r.value.store == InsertAll(h, s, CheckProof(h, idx, p).value) && r.value.root == NodeHash(h, ProofRoot(p))
  {
    hide CheckProof, ProofRoot, InsertAll, NodeHash;
  }

  /** What an accepted proof turns into when it is damaged: cut short, or with an unhashable leaf, it panics;
      with a branch or root entry of another size it is no branch. */
  lemma DamagedIsRefused(h: Hash, idx: nat, p: ProofBytes, i: nat, entry: Bytes)
    requires CheckProof(h, idx, p).Success? && i < PROOF_LENGTH
    ensures CheckProof(h, idx, p[..i]) == Failure(Panic)
    ensures i < ZK_TRIE_DEPTH && |entry| != 64 ==> CheckProof(h, idx, p[i := entry]) == Failure(InvalidBranchNode)
    ensures i >= ZK_TRIE_DEPTH && !Hashable(entry) ==> CheckProof(h, idx, p[i := entry]) == Failure(Panic)
    ensures forall j | j >= INDEX_LIMIT :: CheckProof(h, j, p) == Failure(Panic)
  {
    hide ProofNode, Climbed, Hashable;
    assert |p[i := entry][i]| == |entry|;
  }

  /** A proof with another leaf in it is refused, as an invalid proof. */
  lemma TamperedIsRefused(h: Hash, free: U64, slots: Slots, idx: nat, leaf: Bytes, inUse: iset<Bytes>)
    requires idx < INDEX_LIMIT && idx in slots && Beside(idx) in slots && (forall i | i in slots :: Hashable(slots[i]))
    requires Hashable(leaf) && leaf != slots[idx]
    requires CollisionFree(h, inUse) && ContentsInUse(h, free, slots, inUse)
    requires var p := HonestProof(h, free, slots, idx)[ZK_TRIE_DEPTH + 1 := leaf];
             Shaped(p) ==> ProofHashes(h, idx, p, inUse)
    ensures CheckProof(h, idx, HonestProof(h, free, slots, idx)[ZK_TRIE_DEPTH + 1 := leaf]) == Failure(InvalidProof)
  {
    hide ProofNode, Climbed, HonestProof, ProofHashes, ContentsInUse, CollisionFree, Canon;
    var p, q := HonestProof(h, free, slots, idx), HonestProof(h, free, slots, idx)[ZK_TRIE_DEPTH + 1 := leaf];
    HonestShape(h, free, slots, idx);
    HonestEntries(h, free, slots, idx);
    assert Shaped(q);
    if CheckProof(h, idx, q).Success? {
      ParseOfPreimage(CanonTop(h, free, slots));
      AcceptedIsHonest(h, free, slots, idx, q, inUse);
    }
  }

  lemma PathFromParts(h: Hash, s: Store, idx: nat, slots: Slots)
    requires forall e | 1 <= e <= ZK_TRIE_DEPTH :: NodeIn(h, s, e, idx, slots)
    ensures PathIn(h, s, ZK_TRIE_DEPTH, idx, slots) <==> NodeIn(h, s, 0, idx, slots)
  {
    hide NodeIn;
  }

  lemma CanonIsHash(h: Hash, d: nat, lo: nat, slots: Slots)
    ensures Canon(h, d, lo, slots) == NodeHash(h, CanonNode(h, d, lo, slots))
  {
  }
}
