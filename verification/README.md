# The zk state trie and its arithmetic kernels, in Dafny

This project models the zk state trie (`src/common/zktrie`), the write-back cache in front of it
(`src/common/linea`), the MiMC hash (`src/common/mimc`) and the arithmetic and byte-level Solidity
libraries (`verifier/contracts/utils`), and proves what they are for. `dafny verify dfyconfig.toml`
checks everything.

## What is proved

**State trie.** `ZkTrie` keeps one map three times: as a depth-40 sparse Merkle tree in a
content-addressed node store, as a doubly linked list threaded through the leaves, and as an index
from hashed key to leaf index and value.

- `TrieOnStore.RunHolds`: on a complete store every run of puts, removes and reads is a run of a
  small abstract machine, with the canonical top root after *every intermediate sub-step*.
  `TrieOnStore.TrieIsMap` concludes that a trie started empty is a map, and
  `TrieOnStore.EveryRootShows` that every top root it was ever assigned still shows its contents.
- `TrieRuns.ReachableIsValid`, `TrieRuns.WalkFromHead`, `TrieRuns.IndicesNeverReused`: in every
  reachable state the leaves are a sorted list from head to tail, walked in full by `next_leaf`, and
  no leaf index is ever used twice.
- `Witness.WitnessIsFaithful`, `Witness.WitnessMatchesFullTrie`: record the traces of any run that
  succeeds on a full trie, rebuild the partial store from them, and the same run succeeds there and
  passes through the same roots. `ShippedParser.ShippedReplayIff` says exactly how far the code as it
  is gets on such a witness. `TraceReplay.ReplayRecorded` is the same on the objects, from traces to roots.
- `SparseMerkle.PutGetFramePersist`, `SparseMerkle.TopRootDetermines`, `TrieOnStore.PutRemoveSubRoot`:
  get/put/frame/persistence of the hashed tree, canonicity of the root, and that put followed by
  remove restores the exact sub-root.
- `MerkleProofs.AcceptedIsHonest`, `MerkleProofs.AcceptedIff`, `MerkleProofs.ProofResolvesBranches`: an
  account proof accepted for the trie's root is byte for byte the honest one, when there is one, and what it
  leaves in the store.
- `TrieCaches.TrieCache.WithKey`, `TrieCaches.TrieCache.Flush`, `TrieCaches.BatchOnStore`,
  `AccountCodec.AccountRoundTrip`: the cache is coherent with the trie it buffers, node store included.

**Kernels.** Extended Euclid and four-bit exponentiation; Jacobian formulas refining the tangent and
chord rules of section 2.2.1 of SEC 1, double-and-add over a cyclic group, and the affine interface
on top; the MiMC cipher as a keyed permutation and its sponge; word-wise masked copying; DER
navigation as the inverse of printing TLV trees (section 8.1.3 of ITU-T X.690); SHA-1 with its
lane-parallel schedule and packed rounds against FIPS 180-4.

## How it is modelled

- **Form.** The mutable objects are classes (`TrieObjects.MemStore`, `TrieObjects.SparseMerkleTrie`,
  `TrieObjects.PrefixDB`, `TrieObjects.ZkTrie`, `TrieCaches.TrieCache`, `TrieCaches.LineaTrie`, `Mimc.Absorber`), the memory
  kernels work on arrays in place, and the loops are loops. Each method is proved equal to a
  specification function (modules `MerkleTree`, `SparseMerkle`, `ZkTrieSpec`, `Traces`, ...), and the
  theorems are about those functions.
- **Hashing.** The trie's hash is a parameter `h: Bytes -> Digest` about which nothing is assumed; a
  digest is a canonical element of the MiMC field, and MiMC is one such function (`Mimc.TrieMimc`).
  The store is a plain map in which a write replaces what was there. The theorems assume
  `CollisionFree(h, inUse)` for a set `inUse` of byte strings and that what the call or the run at hand
  hashes is in that set (`ContentsInUse`, `StepsInUse`, `RunInUse`, `StartInUse`, `RunRecordInUse`). Nothing is
  assumed of any other byte string, so the hypothesis can hold for a finite digest.
  From it every write is shown to displace nothing (`MerkleTree.InsertKeeps`), the built-in table to be
  free of displaced nodes (`MerkleTree.EmptyIsSound`) and recorded answers to be consistent.
- **Leaf sizes.** Leaf paths are not hashed, so a 64-byte leaf with a branch's bytes would take the
  branch's place (`MerkleTree.LeafDisplacesBranch`). `Sized` excludes the two sizes at which bytes are
  ambiguous; the leaves the trie writes have 128 bytes, so at trie level nothing is excluded.
- **Curve group.** `ScalarMul.Orbit` is the hypothesis that the multiples of one point form a cyclic group of
  odd order under the tangent and chord rules; `ScalarMul.SmallOrbit` exhibits one.
- **Roots in between.** A trie state carries `trail`, every value `root_hash` was ever assigned, so
  equality of trails is equality after every sub-step.
- **Paths, not stores.** Tree operations are proved for any store that resolves the one path they
  touch (`PathIn`), by induction on the depth. The full trie and the witness are two instances.
- **Index.** The `Database` trait is modelled as an ordered index (predecessor, exact hit, successor)
  for the map and list theorems, and as `MemStore`'s fixed recorded table for the witness theorem.
- **Errors.** Errors and panics are values (`Failure(...)`, `Panic`, `None`); a Solidity revert is `None`.
- **Machine arithmetic.** Unsigned wrap-around, 80-bit truncation, `uint8` overflow and masks are
  written out. A mask of whole low bytes is arithmetic modulo a power of 256; the lane operations of
  SHA-1 are on 256-bit bit-vectors with the source's own constants. Rust arithmetic is taken with overflow
  checks on; the one place where a build without them goes on is `LeafPaths.GetLeafPath`, which states both.

## Where the code and its intent differ

- `LeafOpening::parse` fills `next_leaf` from `prev_leaf` (src/common/zktrie/src/node.rs:404). Every
  operation takes a `Mode`: `Shipped` reads as the code does, `Repaired` reads the bytes that were
  written. `Nodes.ShippedParseInvertsIff` says on which leaves the shipped parser is an inverse, and
  `LinkedLeaves.ShippedKeepsListIff` exactly which operations keep the list with it: reads and
  removals of absent keys. `ShippedParser.ShippedRootIff`: these are also exactly the ones after which
  the root is the repaired one; `ShippedParser.FirstPutSpoils`: the first insertion into an empty trie is
  not one of them. `ShippedParser.ShippedReplayIff`: traces recorded on a correct trie are replayed
  with the recorded roots if and only if no operation writes a leaf, and without an error if and only if at
  most the last one does. The map, index and store theorems hold in both modes, and so does the witness
  theorem for runs in which each removed leaf names its neighbours: all repaired runs do, and a shipped
  one does not once it removes a key it overwrote (`ShippedParser.OverwriteSpoilsRemoval`).
  These replays are of traces whose leaves arrive intact, as in JSON. RLP decoding
  (src/common/zktrie/src/node.rs:369-374) puts the leaves through the shipped parser, and then no leaf of a
  correct trie rebuilds its path (`ShippedParser.DecodedRebuildsIff`, `ShippedParser.NoLeafSurvivesDecoding`).
- `trace_nodes` inserts a root over the *hash* of a next-free node (src/common/zktrie/src/storage.rs:322-326).
  The model inserts the same nodes; the witness state adds the real top node, as the callers do.
- `add_proof` never stores the leaf of the proof (src/common/zktrie/src/storage.rs:228-252), and accepts no
  proof at all when the leaf or its buddy slot is empty, in whatever form the empty leaf travels; sent as no
  bytes it makes it panic. `AcceptedIff`, `HonestAcceptedIff` and `ProofResolvesBranches` state this exactly; the
  very first leaf inserted is such a case (`MerkleProofs.FirstLeafUnprovable`).
- `update` reads every item of 192 bytes as an account before it writes it, for the log
  (src/common/linea/src/trie.rs:55-57), and panics when the nonce does not fit 64 bits, although the trie would
  take the item (`TrieCaches.UnreadableItem`). An encoded account always fits.
- Without overflow checks an index between 2^40 and 2^41 gets the path of the index 2^40 below
  (`LeafPaths.LeafPathAlias`), so a leaf put at 2^40 would land on the head; with them `put` panics.
- A `put` of a fresh key whose value cannot be hashed, or into a full trie, fails after the left
  neighbour was relinked: `TrieOnStore.RefusedLeaves`.
- `expMod` returns 0 for 0^0 and 1 for a power 0 modulo 1; `jacMul` returns the point itself for the
  scalar 0; adding opposite points yields denominator 0, which `toAffine` refuses, so the order itself
  is a scalar on which `ecMul` reverts (`EllipticCurve.ExpMod`, `Jacobian.OppositeSum`,
  `ScalarMul.EcMulIsMultiple`). A bit that meets what is set below it as an equal makes it revert, and one
  that cancels it makes it lose the next bit: `ScalarMul.EcMulIsOutcome` says what comes out for every
  scalar, and `ScalarMul.EcMulBeyondOrder` gives a wrong point. For an order of 256 bits every 256-bit scalar
  is clear of both (`ScalarMul.WordIsClear`).
- `ecAdd` returns 0, 0 for the point at infinity, but 0, 0 as an operand is neutral only beside points with
  a non-zero x; otherwise it reverts on the left and doubles the point on the right
  (`ScalarMul.EcAddInfinity`).
- `mimc` returns an error for the empty input only; a ragged tail panics on the slice inside the loop
  (`Mimc.Absorber.Write`). Blocks are reduced, so a non-canonical block is read as its residue
  (`Mimc.NonCanonicalCollides`).
- DER: the indefinite form makes an eight-bit shift count overflow and reverts, and `nextSiblingOf`
  never notices the end of the parent (`Der.OnlyLastChildEnds` is the test a caller needs).

## Model

| member | source | states |
|---|---|---|
| LeafPaths.CommonPrefix | src/common/zktrie/src/utils.rs:5-13 | the loop returns `PrefixLen`, whose contract makes it a common prefix after which the strings differ |
| LeafPaths.ParseNodeIndexIsLow64 | src/common/zktrie/src/utils.rs:25-32 | the last eight bytes of a 32-byte number are the number modulo 2^64 |
| LeafPaths.ShortIndex | src/common/zktrie/src/utils.rs:25-32 | no bytes read as 0, and fewer than eight panic |
| LeafPaths.GetLeafPath | src/common/zktrie/src/utils.rs:34-51 | the loop terminates with the framed 40-bit path for an index below 2^40; from there on the cursor underflows, which panics, or without overflow checks gives a path up to 2^41 and panics after that |
| LeafPaths.LeafPathAlias | src/common/zktrie/src/utils.rs:34-51 | that path is the one of the index 2^40 below |
| LeafPaths.EndOfLeafBits | src/common/zktrie/src/utils.rs:34-51 | walking the branch bits of a path leads back to the index |
| LeafPaths.LeafPathOnto | src/common/zktrie/src/utils.rs:34-51 | every framed 40-bit path is the path of an index below 2^40 |
| LeafPaths.LeafPathsDiverge | src/common/zktrie/src/utils.rs:34-51 | paths of distinct indices part at a branch level, never in the frame |
| LeafPaths.FirstPaths | src/common/zktrie/src/utils.rs:34-51 | the first two paths byte by byte |
| Nodes.ParseBranch | src/common/zktrie/src/node.rs:233-251 | a parsed branch writes back exactly the bytes it was read from |
| Nodes.BranchBytes | src/common/zktrie/src/node.rs:233-262 | a branch is written left child first, a top node counter first |
| Nodes.ParseOfToBytes | src/common/zktrie/src/node.rs:395-439 | what either parser makes of the bytes of a leaf |
| Nodes.ShippedParseInvertsIff | src/common/zktrie/src/node.rs:395-406 | the shipped parser inverts `to_bytes` if and only if the two links coincide; the head sentinel is a counterexample |
| Nodes.RepairedParseInverts | src/common/zktrie/src/node.rs:395-439 | the repaired parser is a two-sided inverse of `to_bytes` |
| Nodes.ParseFailsIff | src/common/zktrie/src/node.rs:395-406 | which bytes make either parser panic |
| Nodes.TailKeyIsTop | src/common/zktrie/src/node.rs:20-25 | the tail key is the largest canonical digest |
| Nodes.SentinelBytes | src/common/zktrie/src/node.rs:14-25 | the bytes of the head and the tail leaf, one by one |
| MerkleTree.InitWorldState | src/common/zktrie/src/node.rs:155-168 | the loop builds the empty tree's node of every height and the empty top node |
| MerkleTree.InsertKeeps | src/common/zktrie/src/storage.rs:291-295 | if the bytes in use do not collide, storing a node displaces none, and the node can be looked up |
| MerkleTree.EmptyIsSound | src/common/zktrie/src/node.rs:155-168 | if the bytes in use do not collide, every built-in node is looked up under its own digest |
| MerkleTree.LeafDisplacesBranch | src/common/zktrie/src/node.rs:202-262 | a 64-byte leaf with the bytes of a branch takes its place, since paths are not hashed |
| MerkleTree.BuiltInStays | src/common/zktrie/src/storage.rs:283-295 | a built-in node is found whatever was stored under its digest |
| MerkleTree.CanonReplace | src/common/zktrie/src/node.rs:340-345 | replacing the child on the path turns the canonical node of the old slots into that of the new |
| MerkleTree.AddLeafIsUpdate | src/common/zktrie/src/sparse_merkle_trie.rs:138-181 | adding a leaf along a resolved path of a sound store succeeds with the canonical root of the updated slots, and everything resolved stays so |
| MerkleTree.RemoveLeafIsUpdate | src/common/zktrie/src/sparse_merkle_trie.rs:109-136 | removing one succeeds with the canonical root without that slot, and everything resolved stays so |
| MerkleTree.GetNodeIsSlot | src/common/zktrie/src/sparse_merkle_trie.rs:187-224 | reading a resolved path finds exactly the slot's leaf or none, and never hits the level limit |
| MerkleTree.MissingIsNoticed | src/common/zktrie/src/sparse_merkle_trie.rs:109-224 | where the store does not resolve the path to the bottom, adding, removing and reading all fail with NodeNotFound |
| MerkleTree.TooDeepIsNoticed | src/common/zktrie/src/sparse_merkle_trie.rs:109-224 | and where a walk meets branches only, with ReachedMaxLevel |
| MerkleTree.ForeignLeaf | src/common/zktrie/src/sparse_merkle_trie.rs:138-181 | an insertion that meets a leaf stored elsewhere is not allowed; at its own place it writes the leaf, or panics on a value that cannot be hashed |
| MerkleTree.ReadsOwnLeaf | src/common/zktrie/src/sparse_merkle_trie.rs:187-224 | reading finds a leaf at its own path only; elsewhere none, and a counter leaf panics |
| MerkleTree.ShortPathPanics | src/common/zktrie/src/sparse_merkle_trie.rs:109-224 | a walk that runs out of path panics |
| MerkleTree.OtherPath | src/common/zktrie/src/sparse_merkle_trie.rs:109-181 | rewriting one path keeps every other resolved path resolved for the new contents |
| MerkleTree.RootDeterminesSlots | src/common/zktrie/src/sparse_merkle_trie.rs:109-181 | without collisions equal subtree roots mean equal slots |
| SparseMerkle.PutIsUpdate | src/common/zktrie/src/sparse_merkle_trie.rs:87-96 | `put` needs only its own path, yields the canonical top root and keeps the free counter |
| SparseMerkle.RemoveIsUpdate | src/common/zktrie/src/sparse_merkle_trie.rs:98-107 | the same for `remove` |
| SparseMerkle.CounterIsFree | src/common/zktrie/src/sparse_merkle_trie.rs:50-67 | counter and sub-root are read back from the top node |
| SparseMerkle.OffPathFails | src/common/zktrie/src/sparse_merkle_trie.rs:87-225 | under the top root the same: off the resolved paths `put`, `remove` and reading fail with NodeNotFound |
| SparseMerkle.SetNextFreeIsUpdate | src/common/zktrie/src/sparse_merkle_trie.rs:69-83 | moving the counter keeps the tree |
| SparseMerkle.RootErrors | src/common/zktrie/src/sparse_merkle_trie.rs:43-83 | without a root branch counter and sub-root are neither read nor moved, with the two errors |
| SparseMerkle.EmptyStoreIsFull | src/common/zktrie/src/storage.rs:283-289 | an empty store resolves the whole empty tree from the built-in table |
| SparseMerkle.PutGetFramePersist | src/common/zktrie/src/sparse_merkle_trie.rs:87-225 | over a complete sound store `put` succeeds, the leaf path reads the new leaf, all others and the counter are unchanged, and the old root still shows its old contents |
| SparseMerkle.RemoveGetFramePersist | src/common/zktrie/src/sparse_merkle_trie.rs:98-136 | the same for `remove` |
| SparseMerkle.TopRootDetermines | src/common/zktrie/src/sparse_merkle_trie.rs:50-83 | without collisions the top root determines counter and slots |
| TrieMachine.EditLeafReaches | src/common/zktrie/src/trie.rs:109-116 | reading, editing and writing back one leaf is one step of the abstract machine with its canonical root |
| TrieMachine.EmptySlotNotFound | src/common/zktrie/src/trie.rs:85-94 | reading or editing a leaf that is not there fails with KeyNotFound |
| TrieMachine.DropLeafReaches | src/common/zktrie/src/trie.rs:118-127 | so is dropping a leaf |
| TrieMachine.IncrementReaches | src/common/zktrie/src/trie.rs:74-79 | so is moving the free counter |
| TrieMachine.PutFreshReaches | src/common/zktrie/src/trie.rs:163-202 | `put` of a new key passes exactly through the four planned contents, on any store resolving three paths |
| TrieMachine.PutExistingReaches | src/common/zktrie/src/trie.rs:203-219 | `put` of a present key rewrites only that leaf's value hash and index entry |
| TrieMachine.RemoveExistingReaches | src/common/zktrie/src/trie.rs:104-138 | `remove` of a present key passes exactly through the three planned contents |
| TrieMachine.OpReaches | src/common/zktrie/src/trie.rs:100-225 | any operation on any store resolving the paths of its plan is its plan, root by root, and the store shows the contents of each sub-step |
| LinkedLeaves.NearestExists | src/common/zktrie/src/sparse_merkle_trie.rs:9-17 | an ordered index answers every non-sentinel key with the adjacent live leaves |
| LinkedLeaves.NeighboursLinked | src/common/zktrie/src/trie.rs:163-189 | the two neighbours of an absent key are linked to each other |
| LinkedLeaves.LinksAreNearest | src/common/zktrie/src/trace.rs:99-127 | the links of a present leaf name the neighbours the index gives |
| LinkedLeaves.PlanExists | src/common/zktrie/src/trie.rs:100-225 | an operation is accepted if and only if key and value can be hashed and a new leaf has an index |
| LinkedLeaves.OpKeepsAgrees | src/common/zktrie/src/trie.rs:100-225 | every accepted operation keeps index and leaves in agreement, with either parser, and the sentinels without a value |
| LinkedLeaves.OpKeepsValid | src/common/zktrie/src/trie.rs:100-225 | with the repaired parser it also keeps the sorted doubly linked list |
| LinkedLeaves.ShippedKeepsListIff | src/common/zktrie/src/node.rs:395-406 | with the shipped parser it does if and only if it writes no leaf: a read or a removal of an absent key |
| LinkedLeaves.EmptyIsValid | src/common/zktrie/src/trie.rs:41-55 | the two sentinels form a valid list |
| TrieRuns.RunKeeps | src/common/zktrie/src/trie.rs:100-225 | agreement holds along every run, and the list along every repaired run |
| TrieRuns.ReachableIsValid | src/common/zktrie/src/trie.rs:34-225 | every state reachable from empty is valid |
| TrieRuns.WalkFromHead | src/common/zktrie/src/trie.rs:41-55 | following `next_leaf` from the head visits exactly the live leaves in strictly increasing key order, `prev_leaf` being the inverse, and ends at the tail |
| TrieRuns.IndicesNeverReused | src/common/zktrie/src/trie.rs:74-79 | no leaf index taken or given up is ever handed out again, and keys keep their index |
| TrieRuns.OpIsMapUpdate | src/common/zktrie/src/trie.rs:100-225 | one operation changes the value of its own key only, as a map would |
| TrieRuns.RunIsMap | src/common/zktrie/src/trie.rs:100-225 | after any run each key holds its last write, or what it held before |
| TrieRuns.PutRemoveRestores | src/common/zktrie/src/trie.rs:100-225 | putting a fresh key and removing it restores slots and index; the counter is one higher |
| TrieOnStore.EmptyHolds | src/common/zktrie/src/trie.rs:34-55 | `empty` produces a complete store holding the two sentinels and nothing else, with the canonical root after each step |
| ZkTrieSpec.FlatSentinels | src/common/zktrie/src/storage.rs:150-158 | the index entries of the sentinels are their leaves' positions and value hashes |
| TrieOnStore.StepHolds | src/common/zktrie/src/trie.rs:100-225 | an accepted operation on a complete trie succeeds, keeps it complete, assigns the canonical root after each sub-step and leaves a store that shows every sub-step |
| TrieOnStore.ReadHolds | src/common/zktrie/src/trie.rs:144-152 | `read` returns the index value, and the tree leaf at that index has the key and the value's hash |
| TrieOnStore.RunHolds | src/common/zktrie/src/trie.rs:100-225 | a run on a complete trie is the abstract run: it succeeds, with the same contents and trail of roots, and the store shows everything it passed through |
| TrieOnStore.TrieIsMap | src/common/zktrie/src/trie.rs:34-225 | a trie started empty reads back the last write of every key, or none |
| TrieOnStore.EveryRootShows | src/common/zktrie/src/sparse_merkle_trie.rs:87-225 | after any run from empty, every top root the trie was ever assigned still shows the counter and every leaf of that moment |
| TrieOnStore.PutRemoveSubRoot | src/common/zktrie/src/trie.rs:330-355 | put then remove of a fresh key gives the exact sub-root back, under a counter one higher |
| TrieOnStore.RefusedLeaves | src/common/zktrie/src/trie.rs:168-189 | a refused operation returns the error its input calls for and changes nothing, except that a refused put of a fresh key leaves exactly the left neighbour relinked, the index as it was, and so a broken list |
| ZkTrieSpec.BadAnswerPanics | src/common/zktrie/src/trie.rs:100-225 | an answer that names an index without a path makes the operation panic before it changes anything |
| ZkTrieSpec.NoAnswerPanics | src/common/zktrie/src/storage.rs:301-312 | so does a question that was not recorded |
| ZkTrieSpec.PutNeedsRoot | src/common/zktrie/src/trie.rs:154-162 | without its root node the trie refuses to be written |
| ZkTrieSpec.FullCounterPanics | src/common/zktrie/src/trie.rs:74-79 | the counter does not go past 64 bits, nor a sentinel past the last index |
| Traces.BuildNodesLoop | src/common/zktrie/src/trace.rs:221-243 | the loop computes the nodes of a proof's path, bottom up |
| Traces.CounterIsStored | src/common/zktrie/src/storage.rs:319-332 | the two extra nodes a trace stores are the counter leaf, which reads back as the counter, and a branch of its digest and the sub-root |
| Traces.LevelMapFromTraces | src/common/zktrie/src/storage.rs:109-135 | the loop builds the answer table; no trace at all makes it panic |
| Traces.TableIff | src/common/zktrie/src/storage.rs:109-135 | the table is built if and only if every trace has an old state and a key that can be hashed |
| Traces.LastAnswers | src/common/zktrie/src/storage.rs:109-135 | of several traces asking one question the last answers it |
| Traces.TableAnswers | src/common/zktrie/src/storage.rs:109-135 | if no two traces contradict each other, the table answers each trace's question with its key range |
| Traces.InsertAllResolves | src/common/zktrie/src/storage.rs:319-332 | if the bytes in use do not collide, every inserted node can be looked up and older ones stay |
| Witness.ProofRebuildsPath | src/common/zktrie/src/trace.rs:221-243 | an honest proof with its leaf rebuilds exactly the nodes of the path |
| Witness.RecordedTop | src/common/zktrie/src/trace.rs:43-60 | a recorded trace's old top node is the canonical top node of the contents it was taken in |
| Witness.RecordedRange | src/common/zktrie/src/trace.rs:92-129 | its key range is the ordered index's answer for an absent key and the leaf's own links for a present one |
| Witness.RecordedAnswers | src/common/zktrie/src/trace.rs:92-129 | it answers the operation as the index would, if a leaf to be removed names its neighbours |
| Witness.TraceReady | src/common/zktrie/src/trace.rs:131-148 | a store resolving a trace's nodes resolves every path the operation touches, each in the sub-step that walks it; the nodes hash nothing that the contents do not |
| Witness.WitnessExists | src/common/zktrie/src/storage.rs:192-199 | the partial store of a recorded run exists, shows the first root and serves every trace; its table holds the recorded answers only |
| Witness.WitnessIsFaithful | src/common/zktrie/src/trie.rs:100-225 | the same run, in either mode, on the partial store succeeds and after every prefix shows the full trie's root, trail and next value, if each removed leaf names its neighbours |
| Witness.RepairedIsServed | src/common/zktrie/src/trace.rs:99-127 | with the repaired parser every removed leaf does |
| Witness.WitnessMatchesFullTrie | src/common/zktrie/src/trie.rs:100-225 | with the repaired parser the two runs side by side succeed and assign the same roots sub-step by sub-step |
| Witness.CollisionFreeIsConsistent | src/common/zktrie/src/storage.rs:109-135 | without collisions recorded answers cannot contradict each other |
| Witness.RootDeterminesContents | src/common/zktrie/src/trie.rs:57-67 | without collisions equal top roots of reachable states mean equal leaves and index |
| ShippedParser.ShippedRootIff | src/common/zktrie/src/node.rs:395-406 | on a linked state the shipped parser arrives at the root of the repaired one if and only if the operation writes no leaf |
| ShippedParser.FirstPutSpoils | src/common/zktrie/src/node.rs:395-406 | the first insertion into an empty trie breaks list and root |
| ShippedParser.OverwriteSpoilsRemoval | src/common/zktrie/src/trie.rs:203-219 | once the shipped parser overwrote a value, the links recorded for removing that key are not the neighbours |
| ShippedParser.ShippedReplayIff | src/common/zktrie/src/trie.rs:100-225 | replayed with the shipped parser, a run recorded on a correct trie, its leaves arriving intact, shows the recorded roots if and only if it writes no leaf, and gets through if and only if none but its last operation does |
| ShippedParser.DecodedRebuildsIff | src/common/zktrie/src/node.rs:369-374 | a proof whose leaf was decoded from RLP rebuilds the nodes of the path if and only if the two links of the leaf coincide |
| ShippedParser.NoLeafSurvivesDecoding | src/common/zktrie/src/node.rs:369-374 | in a linked state they coincide in no leaf |
| MerkleProofs.CheckProofLoop | src/common/zktrie/src/storage.rs:221-258 | the climb of `add_proof` with every error in the order the code meets it |
| MerkleProofs.ProofIsSound | src/common/zktrie/src/storage.rs:208-277 | an accepted proof with a full trie's root carries exactly the leaf bytes stored at its index, and that trie's top node |
| MerkleProofs.HonestAcceptedIff | src/common/zktrie/src/storage.rs:208-258 | the honest proof, an empty leaf being sent as no bytes, is accepted if and only if the leaf and its buddy are present; otherwise it panics |
| MerkleProofs.AcceptedIsHonest | src/common/zktrie/src/storage.rs:208-277 | a proof accepted for a full trie's root is byte for byte the honest one, and leaf and buddy are present |
| MerkleProofs.AcceptedIff | src/common/zktrie/src/storage.rs:208-277 | some proof for the trie's root is accepted if and only if leaf and buddy are present, in whatever form an empty leaf travels |
| MerkleProofs.FirstLeafUnprovable | src/common/zktrie/src/storage.rs:228-258 | after the first insertion into an empty trie, with either parser, no proof of the new leaf is accepted, and the honest one panics |
| MerkleProofs.ProofResolvesBranches | src/common/zktrie/src/storage.rs:228-262 | after any proof accepted for the trie's root a sound store is sound, the top node and every branch of the path resolve, and the whole path does if and only if the leaf was known already |
| MerkleProofs.ProofAnswers | src/common/zktrie/src/storage.rs:262-277 | after `add_proof` the key reads the value handed in at the returned root, unless an answer was recorded there, which stays, as does every other; a new question without a value panics |
| MerkleProofs.ProofRange | src/common/zktrie/src/storage.rs:262-275 | the answer recorded carries the leaf index of the proof and no neighbours |
| MerkleProofs.AddProofResolves | src/common/zktrie/src/storage.rs:208-277 | `add_proof` returns the trie's root, and the store it leaves is sound and resolves the top node and every branch of the path |
| MerkleProofs.TamperedIsRefused | src/common/zktrie/src/storage.rs:254-256 | an honest proof with another leaf in it is refused as an invalid proof |
| MerkleProofs.DamagedIsRefused | src/common/zktrie/src/storage.rs:221-258 | an accepted proof cut short or given an unhashable leaf panics, and one given a branch entry of another size is no branch |
| TrieObjects.MemStore.GetNode | src/common/zktrie/src/storage.rs:283-289 | built-in empty nodes first, then the stored nodes |
| TrieObjects.MemStore.UpdateNode | src/common/zktrie/src/storage.rs:291-295 | inserts under the node's digest, replacing what was there |
| TrieObjects.MemStore.GetNearestKeys | src/common/zktrie/src/storage.rs:301-312 | the recorded answer for prefix, root and key, staging never consulted; unreachable otherwise |
| ZkTrieSpec.RecordedStandsStill | src/common/zktrie/src/storage.rs:297-316 | updates and removals go to staging, which no question reads |
| TrieObjects.MemStore.LoadTraces | src/common/zktrie/src/storage.rs:192-199 | nodes of every trace and the answer table, under the prefix of the account trie only, or a panic exactly when a trace cannot be rebuilt |
| TrieObjects.MemStore.AddProof | src/common/zktrie/src/storage.rs:208-277 | in place, what the specification of `add_proof` says, its answer under the prefix given and no other, the store untouched on a rejected proof |
| TrieObjects.SparseMerkleTrie.Put | src/common/zktrie/src/sparse_merkle_trie.rs:87-96 | in place, the specified update of store and root; nothing moves on an error but what was already inserted |
| TrieObjects.SparseMerkleTrie.Remove | src/common/zktrie/src/sparse_merkle_trie.rs:98-107 | the same for removal |
| TrieObjects.SparseMerkleTrie.AddLeaf | src/common/zktrie/src/sparse_merkle_trie.rs:138-181 | the recursion on the object is the recursion on values, error by error |
| TrieObjects.SparseMerkleTrie.RemoveLeaf | src/common/zktrie/src/sparse_merkle_trie.rs:109-136 | the same for removal |
| TrieObjects.SparseMerkleTrie.GetNode | src/common/zktrie/src/sparse_merkle_trie.rs:187-224 | the loop from the root is the specified descent and changes nothing |
| TrieObjects.SparseMerkleTrie.RootNode | src/common/zktrie/src/sparse_merkle_trie.rs:43-57 | the stored root branch, with the two ways it can be missing |
| TrieObjects.SparseMerkleTrie.SetNextFree | src/common/zktrie/src/sparse_merkle_trie.rs:69-83 | in place, the specified move of the counter |
| TrieObjects.ZkTrie.SetHeadAndTail | src/common/zktrie/src/trie.rs:41-55 | in place, the specified initial puts, index entries and counter moves in source order |
| TrieObjects.ZkTrie.IncrementFree | src/common/zktrie/src/trie.rs:74-79 | in place, the specified increment |
| TrieObjects.ZkTrie.ParseNode | src/common/zktrie/src/trie.rs:85-94 | the specified parse with its error cases, for any path |
| TrieObjects.ZkTrie.Read | src/common/zktrie/src/trie.rs:144-152 | the specified read |
| TrieObjects.ZkTrie.Put | src/common/zktrie/src/trie.rs:154-225 | in place, the whole new state of tree, store and index and every error exit of the specified `put` |
| TrieObjects.ZkTrie.Remove | src/common/zktrie/src/trie.rs:100-142 | the same for `remove` |
| TraceReplay.Replay | src/common/zktrie/src/trie.rs:372-437 | a fresh store loaded with traces and the first top node, and a run on the trie object over it, is the specified run on the witness: same result, same root after each operation, same trail; a panic where there is no witness |
| TraceReplay.ReplayRecorded | src/common/zktrie/src/trie.rs:372-437 | on traces recorded on a correct trie it succeeds, with the repaired parser, and goes through the recorded roots, after every operation and in every sub-step |
| TraceReplay.ReplayShipped | src/common/zktrie/src/trie.rs:372-437 | with the shipped parser it goes through the recorded roots if and only if the run writes no leaf |
| AccountCodec.AccountRoundTrip | src/common/linea/src/engine.rs:199-243 | decoding undoes encoding for every account, the default one travelling as no bytes |
| AccountCodec.AbsentAccount | src/common/linea/src/engine.rs:174-185 | no bytes decode to an account with nothing in it but the two code hashes of empty code |
| AccountCodec.AccountLayout | src/common/linea/src/engine.rs:199-217 | which number each 32 bytes of an encoded account are |
| AccountCodec.EncodeOfDecodeIff | src/common/linea/src/engine.rs:199-243 | encoding undoes decoding if and only if the bytes are canonical |
| AccountCodec.EncodeInto | src/common/linea/src/engine.rs:199-217 | filling the buffer at a moving offset is the field-by-field encoding |
| TrieCaches.SortDescSorts | src/common/linea/src/trie.rs:52-52 | the batch is sorted by descending key and only reordered |
| TrieCaches.LessByPrefix | src/common/linea/src/trie.rs:52-52 | the order of the keys: at the first difference the smaller byte decides, and a proper prefix is less |
| TrieCaches.LessIsNumeric | src/common/linea/src/trie.rs:52-52 | on keys of one length it is the order of the numbers they write |
| TrieCaches.SortIsStable | src/common/linea/src/trie.rs:52-52 | items of one key keep their order |
| TrieCaches.GreaterGetsLower | src/common/linea/src/trie.rs:51-69 | of two fresh keys put in one batch the greater gets the lower leaf index |
| TrieCaches.LineaTrie.Update | src/common/linea/src/trie.rs:51-69 | the batch is written in sorted order as puts and removals on the node store; it panics if and only if some item of 192 bytes cannot be read as an account or some item is refused |
| TrieCaches.UnreadableItem | src/common/linea/src/trie.rs:55-57 | an item the trie would take and on which the batch panics |
| TrieCaches.BatchWrites | src/common/linea/src/trie.rs:51-69 | after a batch each key holds its batch value, empty meaning absent, and others what they held |
| TrieCaches.BatchOnStore | src/common/linea/src/trie.rs:51-69 | a batch of readable, hashable data that fits goes through on a complete store, and afterwards each key reads its batch value, empty meaning absent, and every other what it read before |
| TrieCaches.RoomSuffices | src/common/linea/src/trie.rs:51-69 | puts and removals of hashable data that fit the remaining indices are accepted by the trie |
| TrieCaches.AccountsLawful | src/common/linea/src/engine.rs:246-254 | the account codec meets the law the cache needs |
| TrieCaches.UnknownIsAbsent | src/common/linea/src/cache.rs:106-111 | a key the trie does not have shows the absent value |
| TrieCaches.AccountsHaveRoom | src/common/linea/src/engine.rs:199-254 | encoded accounts can be read and hashed, so a cache of accounts has room exactly when the indices suffice |
| TrieCaches.TrieCache.WithKey | src/common/linea/src/cache.rs:93-120 | only the view of that key changes, by the closure; the dirty flag is raised as it says; clean entries still equal the trie if and only if the closure flags a change or the key was dirty |
| TrieCaches.TrieCache.Flush | src/common/linea/src/cache.rs:156-181 | nothing stays dirty, no view changes, and the trie, on its node store, then equals the view; it goes through whenever the batch can be read and hashed and has room |
| TrieCaches.TrieCache.Revert | src/common/linea/src/cache.rs:78-87 | exactly when it reports a change, cache and dirty set are dropped and the view is what the store shows at the target root; otherwise nothing was pending |
| EllipticCurve.InvMod | verifier/contracts/utils/EllipticCurveLib.sol:31-44 | terminates without underflow; reverts on 0, the modulus and modulus 0; otherwise the result times the argument is the greatest common divisor, hence the inverse of a coprime argument |
| ModArith.GcdIsGreatest | verifier/contracts/utils/EllipticCurveLib.sol:27-44 | the divisor in that contract is the common divisor every common divisor divides |
| ModArith.UnitIsCoprime | verifier/contracts/utils/EllipticCurveLib.sol:27-44 | only coprime arguments have an inverse |
| EllipticCurve.PowerStepExtends | verifier/contracts/utils/EllipticCurveLib.sol:66-69 | one square-and-multiply step appends one exponent bit |
| EllipticCurve.ExpMod | verifier/contracts/utils/EllipticCurveLib.sol:52-75 | the four-bit loop returns the modular power; the result is right if and only if the exponent is positive or the early return happens to agree |
| Jacobian.DoubleIsTangent | verifier/contracts/utils/EllipticCurveLib.sol:282-313 | doubling a representative of A with 2y invertible represents the tangent-rule point |
| Jacobian.AddIsChord | verifier/contracts/utils/EllipticCurveLib.sol:230-273 | adding representatives with invertible x-difference succeeds and represents the chord-rule point |
| Jacobian.AddRevertsIff | verifier/contracts/utils/EllipticCurveLib.sol:252-253 | addition reverts if and only if the two triples represent the same point |
| Jacobian.OppositeSum | verifier/contracts/utils/EllipticCurveLib.sol:252-272 | opposite points do not revert: the sum has denominator 0 |
| ScalarMul.ToAffine | verifier/contracts/utils/EllipticCurveLib.sol:83-90 | reverts for denominator 0 or the modulus; otherwise canonical coordinates of a represented point when the denominator is coprime |
| ScalarMul.RepresentsOne | verifier/contracts/utils/EllipticCurveLib.sol:77-90 | a triple represents at most one point |
| ScalarMul.AffineOfRepresented | verifier/contracts/utils/EllipticCurveLib.sol:83-90 | so `toAffine` returns the reduced coordinates of the point represented |
| ScalarMul.JacMul | verifier/contracts/utils/EllipticCurveLib.sol:323-347 | the loop is the recursive double-and-add, the point itself for scalar 0; with modulus 0 it reverts where it first reaches `mulmod` |
| ScalarMul.MulLoopHolds | verifier/contracts/utils/EllipticCurveLib.sol:338-346 | for every scalar the accumulator stands for what double-and-add on the numbers modulo the order says: a multiple, what opposite points add up to, what is lost after that, or a revert |
| ScalarMul.JacMulIsMultiple | verifier/contracts/utils/EllipticCurveLib.sol:323-347 | for every clear scalar the result represents d times the point, with denominator 0 where that is infinity, and the revert is unreachable |
| ScalarMul.WordIsClear | verifier/contracts/utils/EllipticCurveLib.sol:25-25 | with an order of 256 bits every 256-bit scalar is clear |
| ScalarMul.ClearOutcome | verifier/contracts/utils/EllipticCurveLib.sol:338-346 | if each bit but the first is congruent neither to what is set below it nor, unless it is the last, to its negative, the outcome is the multiple asked for |
| ScalarMul.EcMul | verifier/contracts/utils/EllipticCurveLib.sol:210-219 | scalar multiplication, then back to affine coordinates, a revert of either being a revert, and modulus 0 one |
| ScalarMul.EcMulIsOutcome | verifier/contracts/utils/EllipticCurveLib.sol:210-219 | what `ecMul` returns for every scalar: the multiple that double-and-add on the numbers modulo the order arrives at, or a revert |
| ScalarMul.EcMulIsMultiple | verifier/contracts/utils/EllipticCurveLib.sol:210-219 | `ecMul` returns the canonical coordinates of k times the point for every clear k, of the point itself for k = 0, and reverts if and only if k is a multiple of the order |
| ScalarMul.EcMulBeyondOrder | verifier/contracts/utils/EllipticCurveLib.sol:323-347 | over an order of five it reverts on eleven times the point, and returns the point itself for 29 times the point, which is another |
| ScalarMul.EcAdd | verifier/contracts/utils/EllipticCurveLib.sol:159-182 | the branches of `ecAdd` on equal first coordinates, and back to affine; modulus 0 reverts |
| ScalarMul.EcAddIsSum | verifier/contracts/utils/EllipticCurveLib.sol:159-182 | `ecAdd` of the i-th and j-th multiples is the canonical (i+j)-th, doubling included, and 0, 0 for opposite points |
| ScalarMul.EcAddInfinity | verifier/contracts/utils/EllipticCurveLib.sol:159-182 | the operand 0, 0 is neutral on either side if and only if the x of the point is not 0; otherwise it reverts on the left and doubles on the right |
| Mimc.Encrypt | src/common/mimc/src/hash.rs:47-62 | the loop is the composition of the rounds, one per constant, and the final key addition |
| Mimc.SeventeenthIsPower | src/common/mimc/src/hash.rs:54-58 | four squarings and a product are the 17th power |
| Mimc.CipherIsPermutation | src/common/mimc/src/hash.rs:47-62 | for every key the explicit inverse over the constants in reverse undoes the cipher, in both orders |
| Mimc.RootExponentUndoes | src/common/mimc/src/fr.rs:7-10 | the inverse exponent of 17 for this modulus |
| Mimc.Absorber.Write | src/common/mimc/src/hash.rs:25-45 | which inputs are absorbed, refused or panic, and the blocks appended |
| Mimc.BlocksAppend | src/common/mimc/src/hash.rs:33-38 | writing whole blocks in pieces is writing them at once |
| Mimc.Absorber.Checksum | src/common/mimc/src/hash.rs:64-72 | the chaining over the absorbed blocks |
| Mimc.ChainGivesBlock | src/common/mimc/src/hash.rs:64-72 | with the cipher's inverse, two digests in a row give back the block between them, so each step adds the cipher's answer and the block to the digest |
| Mimc.Sum | src/common/mimc/src/hash.rs:8-17 | one write and the checksum; an error for no input and a panic for a ragged tail |
| Mimc.ShortIsBlock | src/common/mimc/src/hash.rs:26-31 | a short message sums like the 32-byte block of the same number |
| Mimc.SumIsTrieHash | src/common/zktrie/src/hash.rs:12-14 | `sum` succeeds and fails as the hash function of the trie theorems, error by error |
| Mimc.SumFails | src/common/mimc/src/hash.rs:25-45 | no input is an error, a ragged one panics |
| Mimc.NonCanonicalCollides | src/common/mimc/src/fr.rs:26-34 | replacing a block by itself plus the modulus, anywhere, does not change the sum |
| Mimc.CanonicalBlocksInjective | src/common/mimc/src/fr.rs:26-34 | on canonical blocks reading a message into field elements is one-to-one |
| ByteCopy.MaskSplices | verifier/contracts/utils/BytesUtils.sol:238-250 | the tail mask keeps the first n bytes of one word and the rest of the other, n = 0 and n = 32 included |
| ByteCopy.Memcpy | verifier/contracts/utils/BytesUtils.sol:228-251 | exactly `len` bytes are copied and every other byte of memory is unchanged |
| ByteCopy.Substring | verifier/contracts/utils/BytesUtils.sol:259-273 | reverts if and only if the range leaves the string; otherwise the new string is the exact slice and memory below and beyond it is unchanged |
| ByteCopy.ReadUint16Reads | verifier/contracts/utils/BytesUtils.sol:165-170 | the masked word ending at the index is the two bytes, whatever precedes them |
| ByteCopy.ReadBytesNReads | verifier/contracts/utils/BytesUtils.sol:219-226 | the masked word is the n bytes left-aligned, whatever follows them; the conditions for a revert |
| Der.Unpack | verifier/contracts/utils/Asn1Decode.sol:10-32 | packing three 80-bit indices and unpacking them |
| Der.LongLengthIsRead | verifier/contracts/utils/Asn1Decode.sol:189-196 | the length readings are the memory reads of `BytesUtils` |
| Der.LongLengthUniform | verifier/contracts/utils/Asn1Decode.sol:189-196 | all three branches read the big-endian number of 1 to 32 bytes, and everything else reverts |
| Der.ReadsPrinted | verifier/contracts/utils/Asn1Decode.sol:180-201 | reading where a node is printed yields the pointer to it, for every definite length form |
| Der.IndefiniteReverts | verifier/contracts/utils/Asn1Decode.sol:180-201 | the indefinite length form reverts |
| Der.BytesOfPrinted | verifier/contracts/utils/Asn1Decode.sol:104-116 | `bytesAt` is the content and `allBytesAt` the whole node |
| Der.CutShortReverts | verifier/contracts/utils/Asn1Decode.sol:104-116 | of a node cut short after its header there is a pointer, and both reads revert |
| Der.FirstChild | verifier/contracts/utils/Asn1Decode.sol:83-86 | the first child of a non-empty constructed node |
| Der.PrimitiveHasNoChild | verifier/contracts/utils/Asn1Decode.sol:83-86 | asking a primitive node for a child reverts |
| Der.EmptyHasStrayChild | verifier/contracts/utils/Asn1Decode.sol:73-86 | an empty constructed node reads its own next sibling as its first child |
| Der.NextSibling | verifier/contracts/utils/Asn1Decode.sol:73-75 | each child leads to the next |
| Der.OnlyLastChildEnds | verifier/contracts/utils/Asn1Decode.sol:73-75 | a child ends where its parent ends if and only if it is the last |
| Der.FollowReaches | verifier/contracts/utils/Asn1Decode.sol:43-86 | following any path of a printed tree arrives at the pointer of the node at that path |
| Der.NavigationUndoesPrinting | verifier/contracts/utils/Asn1Decode.sol:43-116 | from the root, every path of every well-formed tree leads to exactly that node's bytes |
| Der.UintOfPrinted | verifier/contracts/utils/Asn1Decode.sol:134-139 | an INTEGER node with content is read if and only if it is non-negative and at most 32 bytes, with its value; one without content as 0, if the byte after it is below 128 |
| Sha1Words.Rotate1OfJoin | verifier/contracts/utils/SHA1.sol:58-62 | shifting the whole word both ways under masks rotates each of the eight lanes by one |
| Sha1Words.Rotate2OfJoin | verifier/contracts/utils/SHA1.sol:71-75 | the same by two |
| Sha1Words.PackedFIsFt | verifier/contracts/utils/SHA1.sol:83-109 | the unmasked f on the packed word is the standard's logical function of the round |
| Sha1Words.RoundConstants | verifier/contracts/utils/SHA1.sol:83-109 | the round constants are 2^30 times the square roots of 2, 3, 5 and 10, cut off |
| Sha1Words.PackedRoundIsStep | verifier/contracts/utils/SHA1.sol:83-132 | a packed round is the standard round and leaves five clean words in their lanes |
| Sha1Words.AddLanesIsPlus | verifier/contracts/utils/SHA1.sol:135-135 | one masked 256-bit addition is five additions modulo 2^32 |
| Sha1Words.PackedDigestIsState | verifier/contracts/utils/SHA1.sol:137-153 | the digest is the five words in order, left-aligned |
| Sha1.DerivedRecurrence | verifier/contracts/utils/SHA1.sol:65-77 | from word 32 on W_t = ROTL2(W_{t-6} ^ W_{t-16} ^ W_{t-28} ^ W_{t-32}) |
| Sha1.Expand | verifier/contracts/utils/SHA1.sol:52-77 | the three-word and six-word loops leave W_0 to W_79, whatever the scratch memory held |
| Sha1.Compress | verifier/contracts/utils/SHA1.sol:79-135 | eighty packed rounds and the final addition are the standard's compression |
| Sha1.TotalLenIsPadded | verifier/contracts/utils/SHA1.sol:20-23 | the masked length computation is the length of the padded message |
| Sha1.ReadWordIsWindow | verifier/contracts/utils/SHA1.sol:27-37 | `readword` is 32 bytes of the data with zeros past its end |
| Sha1.FillBlock | verifier/contracts/utils/SHA1.sol:39-49 | the block in scratch memory is that block of the padded message |
| Sha1.Sha1 | verifier/contracts/utils/SHA1.sol:11-155 | the returned word is the SHA-1 digest of the data |
| Sha1.InitialPattern | verifier/contracts/utils/SHA1.sol:25-25 | the initial hash value is the digits counted up, counted down, and the last word's pattern |
| Sha1.BlockWordsOf | verifier/contracts/utils/SHA1.sol:39-57 | a block is read as sixteen big-endian words in order |
| Sha1.PaddedAsNumber | verifier/contracts/utils/SHA1.sol:39-49 | read as a number the padded message is the data with its terminator, fewer than 512 zero bits, and the length in bits |
| Sha1.Terminator | verifier/contracts/utils/SHA1.sol:39-49 | the terminator is a 1 bit and seven zeros |

## Left out

- JSON and RLP decoding of traces, RPC, threads, logging, the enclave, the block executor: plumbing around the trie.
- The code map of `MemStore`: it does not interact with the trie.
- ShippedParser.ShippedReplayIff: of traces whose leaves went through the shipped parser on the way only the rebuilt nodes are treated, not the run on them.
- That the bytes hashed along a run do not collide, primality of the moduli, Fermat's theorem and associativity of the curve group: hypotheses of the theorems that need them.
- The Keccak hash of empty code: Keccak-256 is a parameter of the account codec.
- Keys whose hash is a sentinel key: excluded by `KeyOk`, as finding one is finding a preimage.
- Overflow of the free counter past 2^64: unreachable, since a put is refused from 2^40 leaves on.
- The `StorageValue` codec, `try_get` and `try_with_key`: encode and decode do not match and the callees are not implemented.
- TrieCaches.TrieCache.WithKey: the closure is a function of the value that says whether to raise the dirty flag; its access to the raw trie and database is not modelled, nor is a bare `mark_dirty`.
- TrieCaches.TrieCache.Revert: the index at the target root is a parameter, since the ordered index is not kept per root.
- Witness.WitnessIsFaithful: that each removed leaf names its neighbours is sufficient; a run of the shipped parser without it may still be served where a wrong relinking changes nothing.
- ScalarMul.ClearOutcome: one way only; a scalar that is not clear may still come out right, where two losses cancel. `ScalarMul.EcMulIsOutcome` covers every scalar.
- Gas, `deriveY`, `isOnCurve`, `ecInv`, `ecSub`, signature checks: single formulas, or policy.
- Mimc.Encrypt: the 62 round constants, a keccak chain, are a parameter of any length.
- ByteCopy.Memcpy: memory is an array long enough for the words read and written past either end, and a destination overlapping the source from above is excluded; the only caller copies to fresh memory.
- Sha1.Sha1: one piece of scratch memory is two arrays, bytes while a block is filled and 32-bit cells from then on (every later access is aligned to 4 bytes); data of 2^61 bytes or more is excluded.
- Der.ReadsPrinted: tags are single bytes, as in the source; `bitstringAt`, `isChildOf`, the nested roots and the hash helpers only combine what is modelled.
- `BytesUtils.compare`, `base32HexDecodeWord`, `X509DateUtils`, `V3Parser`, `RsaVerify`, `SGXVerifier`: easier members or security policy.
