/** Execution traces, the partial store and answer table rebuilt from them. */
module Traces {
  import opened Words
  import opened LeafPaths
  import opened Nodes
  import opened MerkleTree
  import opened ZkTrieSpec

  /** A leaf index and the forty sibling digests on the way up, leaf level first. */
  datatype TraceProof = TraceProof(leafIndex: U64, siblings: seq<Word>)

  datatype Trace =
    | ReadTrace(key: Bytes, nextFree: U64, subRoot: Word, leaf: LeafOpening, proof: TraceProof,
                value: Bytes)
    | ReadZeroTrace(key: Bytes, nextFree: U64, subRoot: Word, leftProof: TraceProof,
                    rightProof: TraceProof)
    | InsertionTrace(key: Bytes, newNextFree: U64, oldSubRoot: Word, leftProof: TraceProof,
                     newProof: TraceProof, rightProof: TraceProof, priorLeft: LeafOpening,
                     priorRight: LeafOpening)
    | UpdateTrace(key: Bytes, newNextFree: U64, oldSubRoot: Word, proof: TraceProof,
                  oldValue: Bytes, priorLeaf: LeafOpening)
    | DeletionTrace(key: Bytes, newNextFree: U64, oldSubRoot: Word, leftProof: TraceProof,
                    deleteProof: TraceProof, rightProof: TraceProof, deleteValue: Bytes,
                    priorLeft: LeafOpening, priorDelete: LeafOpening, priorRight: LeafOpening)

  /** Counter and sub-root before the traced operation; an insertion moved the counter. */
  function OldTopNode(t: Trace): Option<Node> {
    match t
    case ReadTrace(_, free, sub, _, _, _) => Some(TopNode(free, sub))
    case ReadZeroTrace(_, free, sub, _, _) => Some(TopNode(free, sub))
    case UpdateTrace(_, free, sub, _, _, _) => Some(TopNode(free, sub))
    case DeletionTrace(_, free, sub, _, _, _, _, _, _, _) => Some(TopNode(free, sub))
    case InsertionTrace(_, free, sub, _, _, _, _, _) =>
      if free == 0 then None else Some(TopNode(free - 1, sub))
  }

  /** The recorded neighbours: proof indices for absent keys, leaf links for present ones. */
  function KeyRangeOf(t: Trace): KeyRange {
    match t
    case ReadZeroTrace(_, _, _, l, r) => KeyRange(l.leafIndex, None, r.leafIndex)
    case InsertionTrace(_, _, _, l, _, r, _, _) => KeyRange(l.leafIndex, None, r.leafIndex)
    case ReadTrace(_, _, _, leaf, p, value) =>
      KeyRange(leaf.prev, Some(FlattenedLeaf(p.leafIndex, value)), leaf.next)
    case UpdateTrace(_, _, _, p, value, leaf) =>
      KeyRange(leaf.prev, Some(FlattenedLeaf(p.leafIndex, value)), leaf.next)
    case DeletionTrace(_, _, _, _, p, _, value, _, leaf, _) =>
      KeyRange(leaf.prev, Some(FlattenedLeaf(p.leafIndex, value)), leaf.next)
  }

  // ----- the nodes of one proof -----

  /** Hashes upwards from `node`, the `e`-th node of the path, one sibling at a time. */
  function BuildFrom(h: Hash, path: Bytes, siblings: seq<Word>, e: nat, node: Node): seq<Node>
    requires e <= |siblings| < |path|
    decreases |siblings| - e
  {
    if e == |siblings| then [node]
    else [node] + BuildFrom(h, path, siblings, e + 1, Join(h, path[|siblings| - e], node, siblings[e]))
  }

  function Join(h: Hash, bit: Byte, node: Node, sibling: Word): Node {
    if bit == 0 then Branch(NodeHash(h, node), sibling) else Branch(sibling, NodeHash(h, node))
  }

  function ProofLeaf(leaf: Option<LeafOpening>): Node {
    if leaf.Some? then MakeLeaf([VALUE_LEAF], ToBytes(leaf.value)) else EmptyLeaf
  }

  /** None where the original indexes outside the path and panics. */
  function BuildNodes(h: Hash, p: TraceProof, leaf: Option<LeafOpening>): Option<seq<Node>> {
    if p.leafIndex >= INDEX_LIMIT || |p.siblings| >= ZK_TRIE_DEPTH + 2 then None
    else Some(BuildFrom(h, LeafPath(p.leafIndex), p.siblings, 0, ProofLeaf(leaf)))
  }

  method BuildNodesLoop(h: Hash, p: TraceProof, leaf: Option<LeafOpening>)
    returns (r: Option<seq<Node>>)
    ensures r == BuildNodes(h, p, leaf)
  {
    hide LeafPath, Join;
    var path := GetLeafPath(p.leafIndex, true);
    if path.None? || |p.siblings| >= |path.value| {
      return None;
    }
    var out: seq<Node> := [];
    var root := ProofLeaf(leaf);
    for e := 0 to |p.siblings|
      invariant out + BuildFrom(h, path.value, p.siblings, e, root)
             == BuildFrom(h, path.value, p.siblings, 0, ProofLeaf(leaf))
    {
      ghost var above := BuildFrom(h, path.value, p.siblings, e + 1,
                                   Join(h, path.value[|p.siblings| - e], root, p.siblings[e]));
      assert out + ([root] + above) == (out + [root]) + above;
      out := out + [root];
      root := Join(h, path.value[|p.siblings| - e], root, p.siblings[e]);
    }
    return Some(out + [root]);
  }

  // ----- the nodes of a trace -----

  function Both<T>(a: Option<seq<T>>, b: Option<seq<T>>): Option<seq<T>> {
    if a.Some? && b.Some? then Some(a.value + b.value) else None
  }

  function NodesOf(h: Hash, t: Trace): Option<seq<Node>> {
    match t
    case UpdateTrace(_, _, _, p, _, leaf) => BuildNodes(h, p, Some(leaf))
    case InsertionTrace(_, _, _, l, n, r, left, right) =>
      Both(Both(BuildNodes(h, l, Some(left)), BuildNodes(h, n, None)), BuildNodes(h, r, Some(right)))
    case DeletionTrace(_, _, _, l, d, r, _, left, gone, right) =>
      Both(Both(BuildNodes(h, l, Some(left)), BuildNodes(h, d, Some(gone))), BuildNodes(h, r, Some(right)))
    case ReadTrace(_, _, _, _, _, _) => Some([])
    case ReadZeroTrace(_, _, _, _, _) => Some([])
  }

  /** Besides its proof nodes a trace contributes a counter leaf and a root over the hash of that
      leaf. No trie operation ever looks either of them up: real top nodes hold the bare counter. */
  function CounterLeaf(free: U64): Node {
    NextFree([], Be32(free))
  }

  function StoredNodes(h: Hash, t: Trace): Option<seq<Node>> {
    if OldTopNode(t).None? || !OldTopNode(t).value.Branch? then None
    else
      var counter := CounterLeaf(OldTopNode(t).value.left % TWO_TO_64);
      var root := Branch(NodeHash(h, counter), OldTopNode(t).value.right);
      Both(Some([root, counter]), NodesOf(h, t))
  }

  /** The counter leaf reads back as the counter, and the two extra nodes of a trace are that leaf and a branch
      of its digest and the sub-root. */
  lemma CounterIsStored(h: Hash, t: Trace, free: U64, sub: Word)
    requires OldTopNode(t) == Some(TopNode(free, sub)) && NodesOf(h, t).Some?
    ensures ParseNodeIndex(NodeValue(CounterLeaf(free)).value) == Success(free)
    ensures StoredNodes(h, t).Some?
    ensures CounterLeaf(free) in StoredNodes(h, t).value
    ensures Branch(NodeHash(h, CounterLeaf(free)), sub) in StoredNodes(h, t).value
    ensures forall n | n in NodesOf(h, t).value :: n in StoredNodes(h, t).value
  {
    hide NodesOf, OldTopNode;
    ParseNodeIndexIsLow64(free);
    ModUnique(free, TWO_TO_64, 0, free);
    var counter := CounterLeaf(free);
    assert [Branch(NodeHash(h, counter), sub), counter][0] == Branch(NodeHash(h, counter), sub);
  }

  function InsertAll(h: Hash, s: Store, nodes: seq<Node>): Store
    decreases |nodes|
  {
    if nodes == [] then s else Insert(h, InsertAll(h, s, nodes[..|nodes| - 1]), nodes[|nodes| - 1])
  }

  function AllNodes(h: Hash, traces: seq<Trace>): Option<seq<Node>>
    decreases |traces|
  {
    if traces == [] then Some([])
    else Both(AllNodes(h, traces[..|traces| - 1]), StoredNodes(h, traces[|traces| - 1]))
  }

  ghost predicate AllInUse(nodes: seq<Node>, inUse: iset<Bytes>) {
    forall n | n in nodes :: NodeInUse(n, inUse)
  }

  /** Every node of `nodes` can be looked up. */
  ghost predicate Resolved(h: Hash, s: Store, nodes: seq<Node>) {
    forall n | n in nodes :: Lookup(h, s, NodeHash(h, n)) == Some(n)
  }

  /** Every inserted node can be looked up, and so can everything that could be before. */
  lemma {:induction false} InsertAllResolves(h: Hash, s: Store, nodes: seq<Node>, inUse: iset<Bytes>)
    requires Sound(h, s, inUse) && AllInUse(nodes, inUse)
    ensures Sound(h, InsertAll(h, s, nodes), inUse)
    ensures Extends(h, s, InsertAll(h, s, nodes)) && Resolved(h, InsertAll(h, s, nodes), nodes)
    decreases |nodes|
  {
    hide Sound, NodeInUse, Insert, Lookup;
    if nodes != [] {
      var front, last := nodes[..|nodes| - 1], nodes[|nodes| - 1];
      InsertAllResolves(h, s, front, inUse);
      InsertKeeps(h, InsertAll(h, s, front), last, inUse);
      assert forall n | n in nodes :: n in front || n == last;
    }
  }

  // ----- the answer table -----

  type Table = map<(Word, Word), KeyRange>

  /** None where the original panics (no traces) or fails to hash a key. */
  function FromTraces(h: Hash, traces: seq<Trace>): Option<Table>
    decreases |traces|
  {
    if traces == [] then Some(map[])
    else
      var t := traces[|traces| - 1];
      match FromTraces(h, traces[..|traces| - 1])
      case None => None
      case Some(table) =>
        if OldTopNode(t).None? || !Hashable(t.key) then None
        else Some(table[(NodeHash(h, OldTopNode(t).value), h(t.key)) := KeyRangeOf(t)])
  }

  method LevelMapFromTraces(h: Hash, traces: seq<Trace>) returns (r: Option<Table>)
    ensures r == if traces == [] then None else FromTraces(h, traces)
  {
    if traces == [] {
      return None;
    }
    var table: Table := map[];
    var idx := 0;
    while true
      invariant 0 <= idx < |traces|
      invariant FromTraces(h, traces[..idx]) == Some(table)
      decreases |traces| - idx
    {
      var trace := traces[idx];
      assert traces[..idx + 1][..idx] == traces[..idx];
      var top := OldTopNode(trace);
      if top.None? || !Hashable(trace.key) {
        FailsFrom(h, traces, idx + 1);
        assert traces[..|traces|] == traces;
        return None;
      }
      table := table[(NodeHash(h, top.value), h(trace.key)) := KeyRangeOf(trace)];
      idx := idx + 1;
      if idx >= |traces| {
        break;
      }
    }
    assert traces[..|traces|] == traces;
    return Some(table);
  }

  lemma {:induction false} FailsFrom(h: Hash, traces: seq<Trace>, k: nat)
    requires k <= |traces| && FromTraces(h, traces[..k]).None?
    ensures FromTraces(h, traces).None?
    decreases |traces| - k
  {
    if k == |traces| {
      assert traces[..k] == traces;
    } else {
      assert traces[..k + 1][..k] == traces[..k];
      FailsFrom(h, traces, k + 1);
    }
  }

  function Holding(h: Hash, t: Trace): (Word, Word) {
    (if OldTopNode(t).Some? then NodeHash(h, OldTopNode(t).value) else 0, h(t.key))
  }

  /** No two traces give different answers to the same question. */
  ghost predicate Consistent(h: Hash, traces: seq<Trace>) {
    forall i, j | 0 <= i < |traces| && 0 <= j < |traces| && Holding(h, traces[i]) == Holding(h, traces[j]) ::
      KeyRangeOf(traces[i]) == KeyRangeOf(traces[j])
  }

  /** The table is built exactly when every trace has an old state and a key that can be hashed. */
  lemma {:induction false} TableIff(h: Hash, traces: seq<Trace>)
    ensures FromTraces(h, traces).Some? <==>
              forall i | 0 <= i < |traces| :: OldTopNode(traces[i]).Some? && Hashable(traces[i].key)
    decreases |traces|
  {
    hide OldTopNode;
    if traces != [] {
      var front, last := traces[..|traces| - 1], traces[|traces| - 1];
      TableIff(h, front);
      assert forall i | 0 <= i < |front| :: front[i] == traces[i];
    }
  }

  /** Of several traces that ask one question the last answers it, and nothing else is answered. */
  lemma {:induction false} LastAnswers(h: Hash, traces: seq<Trace>, i: nat)
    requires FromTraces(h, traces).Some? && i < |traces|
    requires forall j | i < j < |traces| :: Holding(h, traces[j]) != Holding(h, traces[i])
    ensures Holding(h, traces[i]) in FromTraces(h, traces).value
    ensures FromTraces(h, traces).value[Holding(h, traces[i])] == KeyRangeOf(traces[i])
    decreases |traces|
  {
    hide KeyRangeOf;
    var front := traces[..|traces| - 1];
    if i < |front| {
      LastAnswers(h, front, i);
    }
  }

  /** The table answers each trace's question with that trace's key range. */
  lemma {:induction false} TableAnswers(h: Hash, traces: seq<Trace>)
    requires FromTraces(h, traces).Some? && Consistent(h, traces)
    ensures forall i | 0 <= i < |traces| ::
              Holding(h, traces[i]) in FromTraces(h, traces).value &&
              FromTraces(h, traces).value[Holding(h, traces[i])] == KeyRangeOf(traces[i])
    decreases |traces|
  {
    if traces != [] {
      var front := traces[..|traces| - 1];
      assert Consistent(h, front) by {
        forall i, j | 0 <= i < |front| && 0 <= j < |front| && Holding(h, front[i]) == Holding(h, front[j])
          ensures KeyRangeOf(front[i]) == KeyRangeOf(front[j])
        {
          assert front[i] == traces[i] && front[j] == traces[j];
        }
      }
      TableAnswers(h, front);
      forall i | 0 <= i < |traces|
        ensures Holding(h, traces[i]) in FromTraces(h, traces).value
        ensures FromTraces(h, traces).value[Holding(h, traces[i])] == KeyRangeOf(traces[i])
      {
        if i < |front| {
          assert front[i] == traces[i];
        }
      }
    }
  }
}
