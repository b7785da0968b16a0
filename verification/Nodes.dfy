/** Trie nodes, the digest each is stored under, and the leaf opening codec. */
module Nodes {
  import opened Words
  import opened LeafPaths

  /** The MiMC field modulus; every digest is a canonical element of that field. */
  const MODULUS: nat :=
    8444461749428370424248824938781546531375899335154063827935233455917409239041
  type Digest = x: int | 0 <= x < MODULUS

  /** `mimc::sum` on the inputs it accepts. Nothing is assumed of it. */
  type Hash = Bytes -> Digest

  type U64 = x: int | 0 <= x < TWO_TO_64

  datatype Error =
    | ReachedMaxLevel
    | PathNotAllow
    | NodeNotFound
    | KeyNotFound
    | ParseNodeFail
    | HashFail
    | InvalidBranchNode
    | InvalidProof
    | RootNodeNotFound
    | RootNotBranch
    | Panic

  /** What `Digest::write` absorbs: whole blocks, or one short block, which it pads. */
  predicate Hashable(data: Bytes) {
    0 < |data| && (|data| < 32 || |data| % 32 == 0)
  }

  function TrieHash(h: Hash, data: Bytes): Result<Digest, Error> {
    if Hashable(data) then Success(h(data)) else Failure(HashError(data))
  }

  /** It refuses the empty input and panics on the ragged end of a longer one. */
  function HashError(data: Bytes): Error {
    if data == [] then HashFail else Panic
  }

  datatype Node =
    | Branch(left: Word, right: Word)
    | Leaf(path: Bytes, value: Bytes)
    | EmptyLeaf
    | NextFree(path: Bytes, value: Bytes)

  /** The bytes a node is hashed over; leaf paths are not part of them. */
  function Preimage(n: Node): Bytes {
    match n
    case Branch(l, r) => Be32(l) + Be32(r)
    case Leaf(_, v) => v
    case NextFree(_, v) => v
    case EmptyLeaf => []
  }

  function NodeHash(h: Hash, n: Node): Digest {
    if n.EmptyLeaf? then 0 else h(Preimage(n))
  }

  /** `Node::new` unwraps the hash, so an unhashable leaf value panics. */
  predicate Buildable(n: Node) {
    n.EmptyLeaf? || Hashable(Preimage(n))
  }

  function MakeLeaf(path: Bytes, value: Bytes): Node {
    if path == [NEXT_FREE_LEAF] then NextFree(path, value) else Leaf(path, value)
  }

  function TopNode(free: U64, subRoot: Word): Node {
    Branch(free, subRoot)
  }

  function NodeValue(n: Node): Option<Bytes> {
    match n
    case Branch(_, _) => None
    case EmptyLeaf => Some([])
    case Leaf(_, v) => Some(v)
    case NextFree(_, v) => Some(v)
  }

  /** `BranchNode::child`; an index that is not a bit panics. */
  function Child(n: Node, bit: Byte): Word
    requires n.Branch? && bit <= 1
  {
    if bit == 0 then n.left else n.right
  }

  function NewReplace(n: Node, bit: Byte, child: Word): Node
    requires n.Branch?
  {
    Branch(if bit == 0 then child else n.left, if bit == 1 then child else n.right)
  }

  /** `parse_root` and `parse_branch`. */
  function ParseBranch(buf: Bytes): (r: Result<Node, Error>)
    ensures r.Success? ==> r.value.Branch? && Preimage(r.value) == buf
  {
    if |buf| != 64 then Failure(InvalidBranchNode)
    else
      assert buf == buf[..32] + buf[32..];
      Success(Branch(ToWord(buf[..32]), ToWord(buf[32..])))
  }

  /** A branch is written left child first; a top node begins with the counter. */
  lemma BranchBytes(l: Word, r: Word, free: U64)
    ensures FromBe(Preimage(Branch(l, r))[..32]) == l && FromBe(Preimage(Branch(l, r))[32..]) == r
    ensures FromBe(Preimage(TopNode(free, r))[..32]) == free
  {
    hide Be32, FromBe;
    assert Preimage(Branch(l, r))[..32] == Be32(l) && Preimage(Branch(l, r))[32..] == Be32(r);
    assert Preimage(TopNode(free, r))[..32] == Be32(free);
    Be32RoundTrip(l);
    Be32RoundTrip(r);
    Be32RoundTrip(free);
  }

  /** A digest is a hash of at most one of the byte strings in use, and of none when it is zero. */
  ghost predicate CollisionFree(h: Hash, inUse: iset<Bytes>) {
    && (forall a, b | a in inUse && b in inUse && h(a) == h(b) :: a == b)
    && (forall a | a in inUse :: h(a) != 0)
  }

  /** Sizes at which a leaf's bytes are never those of a counter or a branch. A trie leaf has 128. */
  predicate LeafSized(value: Bytes) {
    |value| != 32 && |value| != 64
  }

  /** A node of one of the three shapes a trie store holds, hashed from bytes in use. */
  ghost predicate NodeInUse(n: Node, inUse: iset<Bytes>) {
    && (n.EmptyLeaf? || Preimage(n) in inUse)
    && (n.Leaf? ==> n.path == [VALUE_LEAF] && LeafSized(n.value))
    && (n.NextFree? ==> n.path == [] && |n.value| == 32)
  }

  /** Paths are not hashed, so the shape has to tell which node a digest stands for. */
  lemma SameDigestSameNode(h: Hash, a: Node, b: Node, inUse: iset<Bytes>)
    requires CollisionFree(h, inUse) && NodeInUse(a, inUse) && NodeInUse(b, inUse)
    requires NodeHash(h, a) == NodeHash(h, b)
    ensures a == b
  {
    if a.Branch? && b.Branch? {
      Be32PairInjective(a.left, a.right, b.left, b.right);
    }
  }

  // ----- leaf openings -----

  const HEAD_KEY: Word := 0
  const TAIL_KEY: Word := 0x12ab655e9a2ca55660b44d1e5c37b00159aa76fed00000010a11800000000000
  const HEAD_INDEX: U64 := 0
  const TAIL_INDEX: U64 := 1

  datatype LeafOpening = LeafOpening(hkey: Word, hval: Word, prev: U64, next: U64)

  const HEAD := LeafOpening(HEAD_KEY, 0, 0, 1)
  const TAIL := LeafOpening(TAIL_KEY, 0, 0, 1)

  function ToBytes(o: LeafOpening): (b: Bytes)
    ensures |b| == 128 && Hashable(b)
  {
    Be32(o.prev) + Be32(o.next) + Be32(o.hkey) + Be32(o.hval)
  }

  /** `LeafOpening::parse` as shipped sets `next_leaf` from the decoded `prev_leaf`; Repaired is
      the reading that `to_bytes` calls for. */
  datatype Mode = Shipped | Repaired

  function Parse(m: Mode, buf: Bytes): Result<LeafOpening, Error> {
    if |buf| != 128 then Failure(Panic)
    else
      var prev, next := ToWord(buf[..32]), ToWord(buf[32..64]);
      var hkey, hval := ToWord(buf[64..96]), ToWord(buf[96..]);
      var read := if m.Shipped? then prev else next;
      if prev >= TWO_TO_64 || read >= TWO_TO_64 then Failure(Panic)
      else Success(LeafOpening(hkey, hval, prev, read))
  }

  /** What a leaf looks like after it was written and parsed again. */
  function View(m: Mode, o: LeafOpening): LeafOpening {
    if m.Shipped? then o.(next := o.prev) else o
  }

  lemma ParseOfToBytes(m: Mode, o: LeafOpening)
    ensures Parse(m, ToBytes(o)) == Success(View(m, o))
  {
    var b := ToBytes(o);
    assert b[..32] == Be32(o.prev);
    assert b[32..64] == Be32(o.next);
    assert b[64..96] == Be32(o.hkey);
    assert b[96..] == Be32(o.hval);
    ToWordOfBe32(o.prev);
    ToWordOfBe32(o.next);
    ToWordOfBe32(o.hkey);
    ToWordOfBe32(o.hval);
  }

  /** Bytes are refused, by a panic, exactly when there are not 128 of them or a link they are read for does
      not fit 64 bits. */
  lemma ParseFailsIff(m: Mode, buf: Bytes)
    ensures Parse(m, buf).Success? || Parse(m, buf) == Failure(Panic)
    ensures Parse(m, buf).Success? <==>
              |buf| == 128 && FromBe(buf[..32]) < TWO_TO_64 && (m.Repaired? ==> FromBe(buf[32..64]) < TWO_TO_64)
  {
    hide FromBe;
  }

  /** The shipped parser inverts `to_bytes` on exactly the leaves whose two links coincide. */
  lemma ShippedParseInvertsIff(o: LeafOpening)
    ensures Parse(Shipped, ToBytes(o)) == Success(o) <==> o.next == o.prev
    ensures Parse(Shipped, ToBytes(HEAD)) != Success(HEAD)
  {
    ParseOfToBytes(Shipped, o);
    ParseOfToBytes(Shipped, HEAD);
  }

  /** The repaired parser is a two-sided inverse. */
  lemma RepairedParseInverts(o: LeafOpening, buf: Bytes)
    ensures Parse(Repaired, buf) == Success(o) <==> buf == ToBytes(o)
  {
    ParseOfToBytes(Repaired, o);
    if Parse(Repaired, buf) == Success(o) {
      assert buf == buf[..32] + buf[32..64] + buf[64..96] + buf[96..];
    }
  }

  /** The two sentinel leaves byte by byte: no key and no value at the head, the tail key at the tail, and the
      head's next link the tail. */
  lemma SentinelBytes()
    ensures ToBytes(HEAD) == Zeros(63) + [1] + Zeros(64)
    ensures ToBytes(TAIL) == Zeros(63) + [1] + Be32(TAIL_KEY) + Zeros(32)
  {
    SmallWord(0);
    SmallWord(1);
    hide Be32, Zeros;
    SentinelLayout(Be32(HEAD_KEY));
    SentinelLayout(Be32(TAIL_KEY));
  }

  lemma SentinelLayout(key: Bytes)
    requires |key| == 32
    ensures Zeros(31) + [0] == Zeros(32) && Zeros(32) + Zeros(32) == Zeros(64)
    ensures Zeros(32) + (Zeros(31) + [1]) + key + Zeros(32) == Zeros(63) + [1] + key + Zeros(32)
    ensures Zeros(63) + [1] + Zeros(32) + Zeros(32) == Zeros(63) + [1] + Zeros(64)
  {
    assert Zeros(32) + (Zeros(31) + [1]) == Zeros(63) + [1];
  }

  lemma SmallWord(x: Byte)
    ensures Be32(x) == Zeros(31) + [x]
  {
    var b := Zeros(31) + [x];
    hide Be32, Zeros;
    FromBeZeros(31);
    assert b[..|b| - 1] == Zeros(31);
    ZerosLength(31);
    FromBe32(b);
  }

  lemma ToBytesInjective(a: LeafOpening, b: LeafOpening)
    requires ToBytes(a) == ToBytes(b)
    ensures a == b
  {
    ParseOfToBytes(Repaired, a);
    ParseOfToBytes(Repaired, b);
  }

  /** The tail key is the largest digest. */
  lemma TailKeyIsTop(d: Digest)
    ensures d <= TAIL_KEY == MODULUS - 1
  {
  }
}
