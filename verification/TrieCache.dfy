/** The write-back cache in front of the trie: reads fill it, changed entries are marked dirty, and
    `flush` writes them back in one batch. */
module TrieCaches {
  import opened Words
  import opened LeafPaths
  import opened Nodes
  import opened ZkTrieSpec
  import opened TrieMachine
  import opened LinkedLeaves
  import opened TrieRuns
  import opened MerkleTree
  import opened SparseMerkle
  import opened TrieOnStore
  import Accounts = AccountCodec

  type Key = Bytes

  // ----- the batch write of the trie -----

  type Updates = seq<(Key, Bytes)>

  /** Byte-wise lexicographic order. */
  predicate Less(a: Bytes, b: Bytes) {
    b != [] && (a == [] || a[0] < b[0] || (a[0] == b[0] && Less(a[1..], b[1..])))
  }

  function InsertDesc(u: (Key, Bytes), us: Updates): Updates {
    if us == [] || !Less(u.0, us[0].0) then [u] + us else [us[0]] + InsertDesc(u, us[1..])
  }

  /** A stable sort by descending key. */
  function SortDesc(us: Updates): Updates {
    if us == [] then [] else InsertDesc(us[0], SortDesc(us[1..]))
  }

  /** At the first difference the smaller byte decides; without one the shorter string is less. */
  lemma {:induction false} LessByPrefix(a: Bytes, b: Bytes)
    ensures var n := PrefixLen(a, b);
            Less(a, b) <==> n < |b| && (n == |a| || a[n] < b[n])
    decreases |a|
  {
    if a != [] && b != [] && a[0] == b[0] {
      LessByPrefix(a[1..], b[1..]);
    }
  }

  /** On strings of one length, as hashed and padded keys are, it is the order of the numbers they write. */
  lemma LessIsNumeric(a: Bytes, b: Bytes)
    requires |a| == |b|
    ensures Less(a, b) <==> FromBe(a) < FromBe(b)
  {
    hide FromBe, Less;
    LessByPrefix(a, b);
    var n := PrefixLen(a, b);
    if n < |a| {
      DecidedAt(a, b, n);
    } else {
      assert a == a[..n] && b == b[..n];
    }
  }

  lemma DecidedAt(a: Bytes, b: Bytes, n: nat)
    requires |a| == |b| && n < |a| && a[..n] == b[..n] && a[n] != b[n]
    ensures FromBe(a) < FromBe(b) <==> a[n] < b[n]
  {
    hide FromBe;
    if a[n] < b[n] {
      SmallerAt(a, b, n);
    } else {
      SmallerAt(b, a, n);
    }
  }

  lemma SmallerAt(a: Bytes, b: Bytes, n: nat)
    requires |a| == |b| && n < |a| && a[..n] == b[..n] && a[n] < b[n]
    ensures FromBe(a) < FromBe(b)
  {
    hide FromBe, Pow256;
    var u, v, x, y := a[..n + 1], b[..n + 1], a[n + 1..], b[n + 1..];
    assert u[..n] == a[..n] && v[..n] == b[..n];
    LastDecides(u, v);
    assert a == u + x && b == v + y;
    FromBeConcat(u, x);
    FromBeConcat(v, y);
    LeadDecides(FromBe(u), FromBe(v), Pow256(|x|), FromBe(x), FromBe(y));
  }

  lemma LastDecides(u: Bytes, v: Bytes)
    requires |u| == |v| > 0 && u[..|u| - 1] == v[..|v| - 1] && u[|u| - 1] < v[|v| - 1]
    ensures FromBe(u) < FromBe(v)
  {
  }

  lemma LeadDecides(u: nat, v: nat, p: nat, x: nat, y: nat)
    requires u < v && x < p
    ensures u * p + x < v * p + y
  {
    MulMonotone(u + 1, v, p);
    assert (u + 1) * p == u * p + p;
  }

  /** It is a total order: not being less carries over. */
  lemma {:induction false} NotLessTrans(a: Bytes, b: Bytes, c: Bytes)
    requires !Less(a, b) && !Less(b, c)
    ensures !Less(a, c)
    decreases |a|
  {
    if a != [] && b != [] && c != [] && a[0] == b[0] == c[0] {
      NotLessTrans(a[1..], b[1..], c[1..]);
    }
  }

  lemma {:induction false} LessAsymmetric(a: Bytes, b: Bytes)
    ensures !(Less(a, b) && Less(b, a))
    decreases |a|
  {
    if a != [] && b != [] && a[0] == b[0] {
      LessAsymmetric(a[1..], b[1..]);
    }
  }

  ghost predicate InOrder(us: Updates, i: nat)
    requires i + 1 < |us|
  {
    !Less(us[i].0, us[i + 1].0)
  }

  ghost predicate Descending(us: Updates) {
    forall i | 0 <= i < |us| - 1 :: InOrder(us, i)
  }

  lemma {:induction false} InsertDescSorted(u: (Key, Bytes), us: Updates)
    requires Descending(us)
    ensures Descending(InsertDesc(u, us)) && multiset(InsertDesc(u, us)) == multiset(us) + multiset{u}
    decreases |us|
  {
    if us != [] && Less(u.0, us[0].0) {
      var rest := us[1..];
      assert us == [us[0]] + rest;
      forall i | 0 <= i < |rest| - 1
        ensures InOrder(rest, i)
      {
        assert InOrder(us, i + 1);
      }
      InsertDescSorted(u, rest);
      LessAsymmetric(u.0, us[0].0);
      var tail := InsertDesc(u, rest);
      assert tail[0] == u || (rest != [] && tail[0] == rest[0] && InOrder(us, 0));
      DescendingCons(us[0], tail);
      assert multiset([us[0]] + tail) == multiset{us[0]} + multiset(tail);
    } else {
      DescendingCons(u, us);
    }
  }

  lemma DescendingCons(u: (Key, Bytes), us: Updates)
    requires Descending(us) && (us != [] ==> !Less(u.0, us[0].0))
    ensures Descending([u] + us)
  {
    var all := [u] + us;
    forall i | 0 <= i < |all| - 1
      ensures InOrder(all, i)
    {
      if i > 0 {
        assert InOrder(us, i - 1);
      }
    }
  }

  /** The sort reorders and does nothing else. */
  lemma {:induction false} SortDescSorts(us: Updates)
    ensures Descending(SortDesc(us)) && multiset(SortDesc(us)) == multiset(us)
    decreases |us|
  {
    if us != [] {
      SortDescSorts(us[1..]);
      InsertDescSorted(us[0], SortDesc(us[1..]));
      assert us == [us[0]] + us[1..];
    }
  }

  /** Sorted all along, not only from one item to the next. */
  lemma {:induction false} DescendingFar(us: Updates, i: nat, j: nat)
    requires Descending(us) && i < j < |us|
    ensures !Less(us[i].0, us[j].0)
    decreases j - i
  {
    assert InOrder(us, j - 1);
    if i < j - 1 {
      DescendingFar(us, i, j - 1);
      NotLessTrans(us[i].0, us[j - 1].0, us[j].0);
    }
  }

  /** The data listed for one key, in order. */
  function DataOf(us: Updates, k: Key): seq<Bytes> {
    if us == [] then [] else (if us[0].0 == k then [us[0].1] else []) + DataOf(us[1..], k)
  }

  lemma {:induction false} InsertKeepsData(u: (Key, Bytes), us: Updates, k: Key)
    ensures DataOf(InsertDesc(u, us), k) == DataOf([u] + us, k)
    decreases |us|
  {
    assert ([u] + us)[1..] == us;
    if us != [] && Less(u.0, us[0].0) {
      var rest := us[1..];
      InsertKeepsData(u, rest, k);
      assert ([us[0]] + InsertDesc(u, rest))[1..] == InsertDesc(u, rest) && ([u] + rest)[1..] == rest;
      LessAsymmetric(u.0, us[0].0);
    }
  }

  /** The sort is stable: items of one key stay in their order. */
  lemma {:induction false} SortIsStable(us: Updates, k: Key)
    ensures DataOf(SortDesc(us), k) == DataOf(us, k)
    decreases |us|
  {
    if us != [] {
      SortIsStable(us[1..], k);
      InsertKeepsData(us[0], SortDesc(us[1..]), k);
      assert ([us[0]] + SortDesc(us[1..]))[1..] == SortDesc(us[1..]);
    }
  }

  /** Empty data removes the key. */
  function OpOf(u: (Key, Bytes)): Op {
    if u.1 == [] then RemoveOp(u.0) else PutOp(u.0, u.1)
  }

  function OpsOf(us: Updates): seq<Op> {
    seq(|us|, i requires 0 <= i < |us| => OpOf(us[i]))
  }

  /** An item of 192 bytes is read as an account before it is written, for the log; one whose nonce does
      not fit 64 bits makes that reading panic. */
  predicate Readable(data: Bytes) {
    |data| == 192 ==> ToWord(data[..32]) < TWO_TO_64
  }

  predicate AllReadable(us: Updates) {
    forall i | 0 <= i < |us| :: Readable(us[i].1)
  }

  lemma ReadableIff(h: Hash, keccak: Accounts.Keccak, data: Bytes)
    ensures Readable(data) <==> (|data| == 192 ==> Accounts.Decode(h, keccak, data).Success?)
  {
  }

  function WriteOne(h: Hash, m: Mode, st: State, u: (Key, Bytes)): Out {
    if !Readable(u.1) then Err(st, Panic) else RunOp(h, m, st, OpOf(u))
  }

  /** Writes the items one by one; every failure is unwrapped, so the first one ends it. */
  function WriteAll(h: Hash, m: Mode, st: State, us: Updates): Out
    decreases |us|
  {
    if us == [] then Ok(st)
    else
      var st' :- WriteAll(h, m, st, us[..|us| - 1]);
      WriteOne(h, m, st', us[|us| - 1])
  }

  /** Items that can be read are written as the run of their operations. */
  lemma {:induction false} ReadableRuns(h: Hash, m: Mode, st: State, us: Updates)
    ensures AllReadable(us) ==> WriteAll(h, m, st, us) == Run(h, m, st, OpsOf(us))
    ensures !AllReadable(us) ==> WriteAll(h, m, st, us).Err?
    decreases |us|
  {
    hide RunOp, Readable;
    if us != [] {
      var front := us[..|us| - 1];
      ReadableRuns(h, m, st, front);
      assert OpsOf(us)[..|us| - 1] == OpsOf(front);
      assert forall i | 0 <= i < |front| :: front[i] == us[i];
    }
  }

  lemma ReorderedReadable(us: Updates, vs: Updates)
    requires multiset(us) == multiset(vs) && AllReadable(us)
    ensures AllReadable(vs)
  {
    hide Readable;
    forall i | 0 <= i < |vs|
      ensures Readable(vs[i].1)
    {
      assert vs[i] in multiset(us);
    }
  }

  /** Whatever prefix of the operations is run, no two of the byte strings it hashes collide. */
  ghost predicate Covered(h: Hash, m: Mode, a: Abs, ops: seq<Op>, inUse: iset<Bytes>) {
    forall n | 0 <= n <= |ops| :: RunInUse(h, m, a, ops[..n], inUse)
  }

  /** What `get` finds in contents `a`: an absent key reads as no bytes, and one that hashes to a
      sentinel has no neighbours on one side. */
  function StoredIn(h: Hash, a: Abs, k: Key): Result<Bytes, Error> {
    if !Hashable(k) then Failure(HashError(k))
    else if h(k) == HEAD_KEY || h(k) == TAIL_KEY then Failure(Panic)
    else Success(BytesOf(ValueAt(a, h(k))))
  }

  /** The trie behind the cache: a zk trie on a complete store. `contents` is what it holds. */
  class LineaTrie {
    const h: Hash
    const keccak: Accounts.Keccak
    const mode: Mode
    ghost const inUse: iset<Bytes>
    var st: State
    ghost var contents: Abs

    ghost predicate Valid()
      reads this
    {
      Holds(h, st, contents, inUse) && Agrees(h, contents)
    }

    constructor (h: Hash, keccak: Accounts.Keccak, mode: Mode, st: State, ghost contents: Abs,
                 ghost inUse: iset<Bytes>)
      requires Holds(h, st, contents, inUse) && Agrees(h, contents)
      ensures Valid() && this.h == h && this.keccak == keccak && this.mode == mode && this.st == st
      ensures this.contents == contents && this.inUse == inUse
    {
      this.h, this.keccak, this.mode, this.st := h, keccak, mode, st;
      this.contents, this.inUse := contents, inUse;
    }

    /** `get` */
    function Stored(k: Key): Result<Bytes, Error>
      reads this
    {
      var r := Read(h, st, k);
      if r.Failure? then Failure(r.error) else Success(BytesOf(r.value))
    }

    lemma StoredIs(k: Key)
      requires Valid()
      ensures Stored(k) == StoredIn(h, contents, k)
    {
      hide Agrees, Holds;
      if Hashable(k) {
        if h(k) == HEAD_KEY || h(k) == TAIL_KEY {
          SentinelPanics(h, st, contents, inUse, k);
        } else {
          ReadHolds(h, st, contents, k, inUse);
        }
      }
    }

    /** `update`: sort by descending key, then put or remove one by one on the store. False where an
        item cannot be read, or where an error is unwrapped, and the original panics. */
    method Update(us: Updates) returns (ok: bool)
      requires Valid() && Covered(h, mode, contents, OpsOf(SortDesc(us)), inUse)
      modifies this
      ensures ok <==> AllReadable(us) && AbsRun(h, mode, old(contents), OpsOf(SortDesc(us))).Some?
      ensures ok <==> WriteAll(h, mode, old(st), SortDesc(us)).Ok?
      ensures ok ==> WriteAll(h, mode, old(st), SortDesc(us)) == Ok(st) && Valid()
      ensures ok ==> AbsRun(h, mode, old(contents), OpsOf(SortDesc(us))) == Some(contents)
    {
      hide Agrees, Holds, AbsRun, RunOp, Covered, SortDesc, Accounts.Decode, Readable, AllReadable;
      var sorted := SortDesc(us);
      SortKeepsReadable(us);
      WriteAllIff(h, mode, st, contents, sorted, inUse);
      for i := 0 to |sorted|
        invariant WriteAll(h, mode, old(st), sorted[..i]) == Ok(st) && contents == old(contents)
      {
        var (key, data) := sorted[i];
        assert sorted[..i + 1][..i] == sorted[..i] && sorted[..i + 1][i] == sorted[i];
        ReadableIff(h, keccak, data);
        if |data| == 192 && Accounts.Decode(h, keccak, data).Failure? {
          WriteStops(h, mode, old(st), sorted, i + 1);
          return false;
        }
        var out := RunOp(h, mode, st, OpOf(sorted[i]));
        if out.Err? {
          WriteStops(h, mode, old(st), sorted, i + 1);
          return false;
        }
        st := out.st;
      }
      assert sorted[..|sorted|] == sorted;
      contents := AbsRun(h, mode, contents, OpsOf(sorted)).value;
      return true;
    }

    /** `new_root`: the trie at another root of the same store. The store still shows its tree; `index`
        is what the database answers there. */
    method NewRoot(root: Word, index: Index, ghost target: Abs)
      requires Valid() && Agrees(h, target) && RootOf(h, target) == root
      requires Kept(h, st.store, [target]) && index == Ordered(target.leaves)
      modifies this
      ensures Valid() && contents == target && st == State(root, [root], old(st).store, index)
    {
      hide Agrees, RootOf, Top, AllPaths, Sound;
      assert Top(h, st.store, [target][0]) && AllPaths(h, st.store, [target][0]);
      st, contents := State(root, [root], st.store, index), target;
    }
  }

  /** One entry of a batch: it goes through on the store exactly when it has a plan. */
  lemma BatchStep(h: Hash, m: Mode, a: Abs, ops: seq<Op>, i: nat, st: State, b: Abs, inUse: iset<Bytes>)
    requires i < |ops| && Covered(h, m, a, ops, inUse) && AbsRun(h, m, a, ops[..i]) == Some(b)
    requires Holds(h, st, b, inUse) && Agrees(h, b)
    ensures var p, out := PlanOf(h, m, b, ops[i]), RunOp(h, m, st, ops[i]);
            if p.None? then out.Err? && AbsRun(h, m, a, ops[..i + 1]).None?
            else
              && out.Ok? && Holds(h, out.st, LastOf(b, p.value.steps), inUse) && Agrees(h, LastOf(b, p.value.steps))
              && AbsRun(h, m, a, ops[..i + 1]) == Some(LastOf(b, p.value.steps))
  {
    hide Agrees, Holds, PlanOf, RunOp, RunInUse, StepsInUse, States, Kept, Accepts;
    assert ops[..i + 1][..i] == ops[..i] && ops[..i + 1][i] == ops[i];
    if PlanOf(h, m, b, ops[i]).None? {
      NoPlanErrs(h, m, st, b, ops[i], inUse);
    } else {
      assert RunInUse(h, m, a, ops[..i + 1], inUse);
      StatesStep(h, m, a, ops[..i + 1], inUse);
      PlanKeyOk(h, m, b, ops[i]);
      PlanExists(h, m, b, ops[i]);
      StepHolds(h, m, st, b, ops[i], inUse);
      OpKeepsAgrees(h, m, b, ops[i]);
    }
  }

  /** On a complete store a run goes through exactly when the abstract one does. */
  lemma {:induction false} RunIff(h: Hash, m: Mode, st: State, a: Abs, ops: seq<Op>, n: nat, inUse: iset<Bytes>)
    requires n <= |ops| && Covered(h, m, a, ops, inUse) && Holds(h, st, a, inUse) && Agrees(h, a)
    ensures var out, b := Run(h, m, st, ops[..n]), AbsRun(h, m, a, ops[..n]);
            && (out.Ok? <==> b.Some?)
            && (b.Some? ==> Holds(h, out.st, b.value, inUse) && Agrees(h, b.value))
    decreases n
  {
    hide Agrees, Holds, PlanOf, RunOp, Covered;
    if n == 0 {
      assert ops[..0] == [];
    } else {
      RunIff(h, m, st, a, ops, n - 1, inUse);
      assert ops[..n][..n - 1] == ops[..n - 1] && ops[..n][n - 1] == ops[n - 1];
      if AbsRun(h, m, a, ops[..n - 1]).Some? {
        BatchStep(h, m, a, ops, n - 1, Run(h, m, st, ops[..n - 1]).st, AbsRun(h, m, a, ops[..n - 1]).value, inUse);
      }
    }
  }

  /** So a batch goes through exactly when every item can be read and none is refused. */
  lemma WriteAllIff(h: Hash, m: Mode, st: State, a: Abs, us: Updates, inUse: iset<Bytes>)
    requires Covered(h, m, a, OpsOf(us), inUse) && Holds(h, st, a, inUse) && Agrees(h, a)
    ensures var out, b := WriteAll(h, m, st, us), AbsRun(h, m, a, OpsOf(us));
            && (out.Ok? <==> AllReadable(us) && b.Some?)
            && (out.Ok? ==> Holds(h, out.st, b.value, inUse) && Agrees(h, b.value))
  {
    hide Agrees, Holds, AbsRun, Run, Covered, AllReadable;
    ReadableRuns(h, m, st, us);
    RunIff(h, m, st, a, OpsOf(us), |us|, inUse);
    assert OpsOf(us)[..|us|] == OpsOf(us);
  }

  lemma {:induction false} WriteStops(h: Hash, m: Mode, st: State, us: Updates, k: nat)
    requires k <= |us| && WriteAll(h, m, st, us[..k]).Err?
    ensures WriteAll(h, m, st, us).Err?
    decreases |us|
  {
    hide WriteOne;
    if k == |us| {
      assert us[..k] == us;
    } else {
      assert us[..|us| - 1][..k] == us[..k];
      WriteStops(h, m, st, us[..|us| - 1], k);
    }
  }

  lemma SortKeepsReadable(us: Updates)
    ensures AllReadable(us) <==> AllReadable(SortDesc(us))
  {
    hide AllReadable;
    SortDescSorts(us);
    if AllReadable(us) {
      ReorderedReadable(us, SortDesc(us));
    }
    if AllReadable(SortDesc(us)) {
      ReorderedReadable(SortDesc(us), us);
    }
  }

  // ----- what a batch does -----

  /** `us` lists the entries of `batch`, each once, in some order. */
  ghost predicate Lists(us: Updates, batch: map<Key, Bytes>) {
    && (forall i | 0 <= i < |us| :: us[i].0 in batch && batch[us[i].0] == us[i].1)
    && (forall i, j | 0 <= i < j < |us| :: us[i].0 != us[j].0)
    && (forall k | k in batch :: exists i :: 0 <= i < |us| && us[i].0 == k)
  }

  lemma ListsDrop(us: Updates, batch: map<Key, Bytes>)
    requires Lists(us, batch) && us != []
    ensures Lists(us[1..], batch - {us[0].0})
  {
    var rest := us[1..];
    var fewer := batch - {us[0].0};
    forall k | k in fewer
      ensures exists i :: 0 <= i < |rest| && rest[i].0 == k
    {
      var i :| 0 <= i < |us| && us[i].0 == k;
      assert rest[i - 1].0 == k;
    }
  }

  lemma ListsDropLast(us: Updates, batch: map<Key, Bytes>)
    requires Lists(us, batch) && us != []
    ensures Lists(us[..|us| - 1], batch - {us[|us| - 1].0})
  {
    var rest := us[..|us| - 1];
    var fewer := batch - {us[|us| - 1].0};
    forall k | k in fewer
      ensures exists i :: 0 <= i < |rest| && rest[i].0 == k
    {
      var i :| 0 <= i < |us| && us[i].0 == k;
      assert rest[i].0 == k;
    }
  }

  lemma ListsCons(u: (Key, Bytes), us: Updates, batch: map<Key, Bytes>)
    requires Lists(us, batch) && u.0 !in batch
    ensures Lists([u] + us, batch[u.0 := u.1])
  {
    var all := [u] + us;
    var more := batch[u.0 := u.1];
    forall k | k in more
      ensures exists i :: 0 <= i < |all| && all[i].0 == k
    {
      if k == u.0 {
        assert all[0].0 == k;
      } else {
        var i :| 0 <= i < |us| && us[i].0 == k;
        assert all[i + 1].0 == k;
      }
    }
  }

  lemma {:induction false} InsertLists(u: (Key, Bytes), us: Updates, batch: map<Key, Bytes>)
    requires Lists(us, batch) && u.0 !in batch
    ensures Lists(InsertDesc(u, us), batch[u.0 := u.1])
    decreases |us|
  {
    if us == [] || !Less(u.0, us[0].0) {
      ListsCons(u, us, batch);
    } else {
      var head, less := us[0], batch - {us[0].0};
      ListsDrop(us, batch);
      InsertLists(u, us[1..], less);
      ListsCons(head, InsertDesc(u, us[1..]), less[u.0 := u.1]);
      assert less[u.0 := u.1][head.0 := head.1] == batch[u.0 := u.1];
    }
  }

  lemma ListsFirst(us: Updates, batch: map<Key, Bytes>)
    requires Lists(us, batch) && us != []
    ensures us[0].0 in batch && batch[us[0].0] == us[0].1
  {
  }

  lemma {:induction false} SortLists(us: Updates, batch: map<Key, Bytes>)
    requires Lists(us, batch)
    ensures Lists(SortDesc(us), batch)
    decreases |us|
  {
    hide InsertDesc;
    if us != [] {
      hide Lists;
      ListsFirst(us, batch);
      ListsDrop(us, batch);
      SortLists(us[1..], batch - {us[0].0});
      InsertLists(us[0], SortDesc(us[1..]), batch - {us[0].0});
      assert (batch - {us[0].0})[us[0].0 := us[0].1] == batch;
    }
  }

  /** No two of the keys hash alike. */
  ghost predicate KeysApart(h: Hash, keys: iset<Key>) {
    forall j, k | j in keys && k in keys && h(j) == h(k) :: j == k
  }

  function AsWritten(data: Bytes): Option<Bytes> {
    if data == [] then None else Some(data)
  }

  lemma ListsEnds(us: Updates, batch: map<Key, Bytes>)
    requires Lists(us, batch)
    ensures us == [] ==> batch == map[]
    ensures us != [] ==> us[|us| - 1].0 in batch && batch[us[|us| - 1].0] == us[|us| - 1].1
  {
  }

  lemma {:induction false} BatchWrites(h: Hash, us: Updates, batch: map<Key, Bytes>, k: Key,
                                       before: Option<Bytes>, keys: iset<Key>)
    requires Lists(us, batch) && KeysApart(h, keys) && k in keys
    requires forall j | j in batch :: j in keys
    ensures WrittenOver(h, OpsOf(us), h(k), before) == if k in batch then AsWritten(batch[k]) else before
    decreases |us|
  {
    hide Lists;
    ListsEnds(us, batch);
    if us != [] {
      var last := us[|us| - 1];
      ListsDropLast(us, batch);
      BatchWrites(h, us[..|us| - 1], batch - {last.0}, k, before, keys);
      assert OpsOf(us)[..|us| - 1] == OpsOf(us[..|us| - 1]);
    }
  }

  lemma BatchKeysOk(h: Hash, us: Updates, batch: map<Key, Bytes>)
    requires Lists(us, batch)
    requires forall j | j in batch :: Storable(h, j)
    ensures KeysOk(h, OpsOf(us))
  {
  }

  /** A batch is accepted when its data can be hashed and the trie has an index for each entry. */
  lemma {:induction false} RoomSuffices(h: Hash, m: Mode, a: Abs, ops: seq<Op>)
    requires Agrees(h, a) && KeysOk(h, ops) && a.free + |ops| <= INDEX_LIMIT
    requires forall i | 0 <= i < |ops| :: Hashable(ops[i].key) && (ops[i].PutOp? ==> Hashable(ops[i].value))
    ensures AbsRun(h, m, a, ops).Some? && AbsRun(h, m, a, ops).value.free <= a.free + |ops|
    decreases |ops|
  {
    hide Agrees, PlanOf;
    if ops != [] {
      var front := ops[..|ops| - 1];
      KeysOkPrefix(h, ops);
      RoomSuffices(h, m, a, front);
      RunKeeps(h, m, a, front);
      var b := AbsRun(h, m, a, front).value;
      PlanExists(h, m, b, ops[|ops| - 1]);
      FreeStep(h, m, b, ops[|ops| - 1]);
    }
  }

  /** A batch of readable, hashable data that fits goes through on the store, and afterwards every key reads what
      the batch says, or what it read before. */
  lemma BatchOnStore(h: Hash, m: Mode, st: State, a: Abs, us: Updates, batch: map<Key, Bytes>, k: Key,
                     keys: iset<Key>, inUse: iset<Bytes>)
    requires Holds(h, st, a, inUse) && Agrees(h, a) && RunInUse(h, m, a, OpsOf(SortDesc(us)), inUse)
    requires Lists(us, batch) && KeysApart(h, keys) && (forall j | j in batch :: j in keys)
    requires forall j | j in keys :: Storable(h, j)
    requires (forall j | j in batch :: Writable(batch[j])) && a.free + |us| <= INDEX_LIMIT
    requires k in keys
    ensures var out := WriteAll(h, m, st, SortDesc(us));
            out.Ok? && Read(h, out.st, k) == if k in batch then Success(AsWritten(batch[k])) else Read(h, st, k)
  {
    hide Agrees, Holds, AbsRun, Run, Read, SortDesc, OpsOf, Lists, KeysApart, WrittenOver, RunInUse, Kept, States,
      KeysOk, Extends;
    var sorted := SortDesc(us);
    SortLists(us, batch);
    SortDescSorts(us);
    assert |sorted| == |multiset(sorted)| == |us|;
    BatchKeysOk(h, sorted, batch);
    OpsHashable(sorted, batch);
    OpsLength(sorted);
    RoomSuffices(h, m, a, OpsOf(sorted));
    RunHolds(h, m, st, a, OpsOf(sorted), inUse);
    var b := AbsRun(h, m, a, OpsOf(sorted)).value;
    RunKeeps(h, m, a, OpsOf(sorted));
    RunIsMap(h, m, a, OpsOf(sorted), h(k));
    BatchWrites(h, sorted, batch, k, ValueAt(a, h(k)), keys);
    ReadHolds(h, st, a, k, inUse);
    ListsReadable(sorted, batch);
    ReadableRuns(h, m, st, sorted);
    ReadHolds(h, Run(h, m, st, OpsOf(sorted)).st, b, k, inUse);
  }

  /** Another key's entry in the index is left alone. */
  lemma OthersKeepEntry(h: Hash, m: Mode, a: Abs, op: Op, hkey: Word)
    requires PlanOf(h, m, a, op).Some? && h(op.key) != hkey
    ensures var b := LastOf(a, PlanOf(h, m, a, op).value.steps);
            && (hkey in b.leaves <==> hkey in a.leaves) && (hkey in a.leaves ==> b.leaves[hkey] == a.leaves[hkey])
  {
    hide NearestTo;
  }

  /** A fresh key takes the free index, and the counter moves past it. */
  lemma FreshTakesFree(h: Hash, m: Mode, a: Abs, op: Op)
    requires Agrees(h, a) && op.PutOp? && PlanOf(h, m, a, op).Some? && h(op.key) !in a.leaves
    ensures var b := LastOf(a, PlanOf(h, m, a, op).value.steps);
            h(op.key) in b.leaves && b.leaves[h(op.key)].leafIndex == a.free && b.free == a.free + 1
  {
    PlanKeyOk(h, m, a, op);
    var near, below, above := NearestExists(h, a, h(op.key));
  }

  /** A run that does not touch a key leaves its entry alone. */
  lemma {:induction false} RunKeepsEntry(h: Hash, m: Mode, a: Abs, ops: seq<Op>, hkey: Word)
    requires AbsRun(h, m, a, ops).Some? && forall i | 0 <= i < |ops| :: h(ops[i].key) != hkey
    ensures var b := AbsRun(h, m, a, ops).value;
            && (hkey in b.leaves <==> hkey in a.leaves) && (hkey in a.leaves ==> b.leaves[hkey] == a.leaves[hkey])
    decreases |ops|
  {
    hide PlanOf;
    if ops != [] {
      RunKeepsEntry(h, m, a, ops[..|ops| - 1], hkey);
      OthersKeepEntry(h, m, AbsRun(h, m, a, ops[..|ops| - 1]).value, ops[|ops| - 1], hkey);
    }
  }

  lemma {:induction false} RunSplits(h: Hash, m: Mode, a: Abs, ops: seq<Op>, i: nat)
    requires AbsRun(h, m, a, ops).Some? && i <= |ops|
    ensures AbsRun(h, m, a, ops[..i]).Some?
    ensures AbsRun(h, m, AbsRun(h, m, a, ops[..i]).value, ops[i..]) == AbsRun(h, m, a, ops)
    decreases |ops|
  {
    hide PlanOf;
    if i == |ops| {
      assert ops[..i] == ops && ops[i..] == [];
    } else {
      var front := ops[..|ops| - 1];
      RunSplits(h, m, a, front, i);
      assert front[..i] == ops[..i] && ops[i..][..|ops[i..]| - 1] == front[i..];
    }
  }

  /** The index a fresh key put once in a run ends up with: the counter at its turn. */
  lemma IndexAtTurn(h: Hash, m: Mode, a: Abs, ops: seq<Op>, i: nat)
    requires Agrees(h, a) && KeysOk(h, ops) && AbsRun(h, m, a, ops).Some? && i < |ops| && ops[i].PutOp?
    requires h(ops[i].key) !in a.leaves
    requires forall j | 0 <= j < |ops| && j != i :: h(ops[j].key) != h(ops[i].key)
    ensures AbsRun(h, m, a, ops[..i]).Some? && AbsRun(h, m, a, ops[..i + 1]).Some?
    ensures var free := AbsRun(h, m, a, ops[..i]).value.free;
            && AbsRun(h, m, a, ops[..i + 1]).value.free == free + 1
            && h(ops[i].key) in AbsRun(h, m, a, ops).value.leaves
            && AbsRun(h, m, a, ops).value.leaves[h(ops[i].key)].leafIndex == free
  {
    hide PlanOf, Agrees;
    RunSplits(h, m, a, ops, i + 1);
    assert ops[..i + 1][..i] == ops[..i] && ops[..i + 1][i] == ops[i];
    RunSplits(h, m, a, ops, i);
    var b := AbsRun(h, m, a, ops[..i]).value;
    RunKeeps(h, m, a, ops[..i]);
    RunKeepsEntry(h, m, a, ops[..i], h(ops[i].key));
    FreshTakesFree(h, m, b, ops[i]);
    RunKeepsEntry(h, m, AbsRun(h, m, a, ops[..i + 1]).value, ops[i + 1..], h(ops[i].key));
  }

  /** Of two fresh keys put in one batch the greater gets the lower leaf index. */
  lemma GreaterGetsLower(h: Hash, m: Mode, a: Abs, us: Updates, batch: map<Key, Bytes>, j: Key, k: Key)
    requires Agrees(h, a) && Lists(us, batch) && KeysApart(h, iset k | k in batch)
    requires (forall k | k in batch :: Storable(h, k)) && AbsRun(h, m, a, OpsOf(SortDesc(us))).Some?
    requires j in batch && k in batch && batch[j] != [] && batch[k] != [] && Less(j, k)
    requires h(j) !in a.leaves && h(k) !in a.leaves
    ensures var b := AbsRun(h, m, a, OpsOf(SortDesc(us))).value;
            && h(j) in b.leaves && h(k) in b.leaves && b.leaves[h(k)].leafIndex < b.leaves[h(j)].leafIndex
  {
    hide Agrees, AbsRun, SortDesc, Less, KeysOk, Lists, KeysApart, Descending;
    var sorted := SortDesc(us);
    SortLists(us, batch);
    SortDescSorts(us);
    BatchKeysOk(h, sorted, batch);
    var p := PlaceIn(sorted, batch, j);
    var q := PlaceIn(sorted, batch, k);
    LessAsymmetric(j, k);
    if p < q {
      DescendingFar(sorted, p, q);
    }
    var ops := OpsOf(sorted);
    TurnsApart(h, sorted, batch, p);
    TurnsApart(h, sorted, batch, q);
    IndexAtTurn(h, m, a, ops, p);
    IndexAtTurn(h, m, a, ops, q);
    FreeGrows(h, m, a, ops, q + 1, p);
  }

  lemma PlaceIn(us: Updates, batch: map<Key, Bytes>, k: Key) returns (p: nat)
    requires Lists(us, batch) && k in batch
    ensures p < |us| && us[p].0 == k && us[p].1 == batch[k]
  {
    p :| p < |us| && us[p].0 == k;
  }

  lemma TurnsApart(h: Hash, us: Updates, batch: map<Key, Bytes>, p: nat)
    requires Lists(us, batch) && KeysApart(h, iset k | k in batch) && p < |us|
    ensures forall i | 0 <= i < |us| && i != p :: h(OpsOf(us)[i].key) != h(OpsOf(us)[p].key)
  {
    forall i | 0 <= i < |us| && i != p
      ensures h(OpsOf(us)[i].key) != h(OpsOf(us)[p].key)
    {
      assert us[i].0 != us[p].0;
    }
  }

  /** The counter never goes back along a run. */
  lemma FreeGrows(h: Hash, m: Mode, a: Abs, ops: seq<Op>, i: nat, j: nat)
    requires Agrees(h, a) && KeysOk(h, ops) && AbsRun(h, m, a, ops).Some? && i <= j <= |ops|
    ensures AbsRun(h, m, a, ops[..i]).Some? && AbsRun(h, m, a, ops[..j]).Some?
    ensures AbsRun(h, m, a, ops[..i]).value.free <= AbsRun(h, m, a, ops[..j]).value.free
  {
    hide Agrees, PlanOf, AbsRun;
    RunSplits(h, m, a, ops, i);
    RunSplits(h, m, a, ops, j);
    assert ops[..j][..i] == ops[..i];
    RunSplits(h, m, a, ops[..j], i);
    RunKeeps(h, m, a, ops[..i]);
    IndicesNeverReused(h, m, AbsRun(h, m, a, ops[..i]).value, ops[..j][i..]);
  }

  /** Data a batch can carry: readable, and hashable or none at all. */
  predicate Writable(data: Bytes) {
    Readable(data) && (data == [] || Hashable(data))
  }

  lemma ListsReadable(us: Updates, batch: map<Key, Bytes>)
    requires Lists(us, batch) && forall k | k in batch :: Writable(batch[k])
    ensures AllReadable(us)
  {
    hide Readable;
  }

  /** An item the trie would take and `update` does not: hashable, of 192 bytes, its nonce beyond 64 bits. */
  lemma UnreadableItem(h: Hash, keccak: Accounts.Keccak, m: Mode, st: State, key: Key)
    requires Storable(h, key)
    ensures var data: Bytes := [1] + Zeros(191);
            && |data| == 192 && Hashable(data) && Accounts.Decode(h, keccak, data) == Failure(Panic)
            && AbsRun(h, m, EMPTY, [PutOp(key, data)]).Some?
            && WriteAll(h, m, st, [(key, data)]) == Err(st, Panic)
  {
    var data: Bytes := [1] + Zeros(191);
    BigFirstWord(data);
    ReadableIff(h, keccak, data);
    hide Readable, PlanOf, Agrees, Linked, Accounts.Decode;
    EmptyIsValid(h);
    PlanExists(h, m, EMPTY, PutOp(key, data));
    assert [PutOp(key, data)][..0] == [];
    assert !Readable([(key, data)][0].1);
    assert [(key, data)][..0] == [];
  }

  lemma BigFirstWord(data: Bytes)
    requires |data| == 192 && data[0] > 0
    ensures !Readable(data)
  {
    hide FromBe, Pow256;
    var word := data[..32];
    assert word[..24] + word[24..] == word;
    FromBeConcat(word[..24], word[24..]);
    FirstNonzero(word[..24]);
    EightBytes(8);
    MulMonotone(1, FromBe(word[..24]), Pow256(8));
  }

  lemma {:induction false} FirstNonzero(b: Bytes)
    requires b != [] && b[0] > 0
    ensures FromBe(b) > 0
    decreases |b|
  {
    if |b| > 1 {
      FirstNonzero(b[..|b| - 1]);
    } else {
      assert b[..0] == [];
    }
  }

  lemma EightBytes(k: nat)
    requires k == 8
    ensures Pow256(k) == TWO_TO_64
  {
  }

  lemma OpsLength(us: Updates)
    ensures |OpsOf(us)| == |us|
  {
  }

  /** A plan needs both neighbours, so its key is between the sentinels. */
  lemma PlanKeyOk(h: Hash, m: Mode, a: Abs, op: Op)
    requires Agrees(h, a) && PlanOf(h, m, a, op).Some?
    ensures KeyOk(h, op)
  {
    TailKeyIsTop(h(op.key));
  }

  /** An operation without a plan returns an error. */
  lemma NoPlanErrs(h: Hash, m: Mode, st: State, a: Abs, op: Op, inUse: iset<Bytes>)
    requires Holds(h, st, a, inUse) && Agrees(h, a) && PlanOf(h, m, a, op).None?
    ensures RunOp(h, m, st, op).Err?
  {
    hide EditLeaf, AddFresh, DropExisting, AllPaths, Sound, Nearest, NearestTo;
    CounterIsFree(h, st.store, a.free, Enc(a.slots));
    NearestHere(h, st, a, h(op.key));
    if Hashable(op.key) && NearestTo(a, h(op.key)).Some? {
      NearIsThere(h, a, h(op.key));
    }
  }

  lemma NearIsThere(h: Hash, a: Abs, hkey: Word)
    requires Agrees(h, a) && NearestTo(a, hkey).Some?
    ensures var near := NearestTo(a, hkey).value;
            && near.left in a.slots && near.right in a.slots
            && (near.center.Some? ==>
                  near.center.value.leafIndex in a.slots && near.right != near.center.value.leafIndex)
  {
  }

  lemma SentinelPanics(h: Hash, st: State, a: Abs, inUse: iset<Bytes>, k: Key)
    requires Holds(h, st, a, inUse) && Agrees(h, a) && Hashable(k) && (h(k) == HEAD_KEY || h(k) == TAIL_KEY)
    ensures Read(h, st, k) == Failure(Panic)
  {
    hide Sound, AllPaths;
    TailKeyIsTop(h(k));
  }

  lemma OpsHashable(us: Updates, batch: map<Key, Bytes>)
    requires Lists(us, batch) && forall k | k in batch :: Hashable(k) && Writable(batch[k])
    ensures forall i | 0 <= i < |OpsOf(us)| ::
              Hashable(OpsOf(us)[i].key) && (OpsOf(us)[i].PutOp? ==> Hashable(OpsOf(us)[i].value))
  {
  }

  lemma FreeStep(h: Hash, m: Mode, b: Abs, op: Op)
    requires PlanOf(h, m, b, op).Some?
    ensures LastOf(b, PlanOf(h, m, b, op).value.steps).free <= b.free + 1
  {
  }

  // ----- the cache -----

  /** How values travel: `absent` stands for a key the trie does not have. */
  datatype Codec<!V> = Codec(encode: V -> Bytes, decode: Bytes -> Result<V, Error>, absent: V)

  function Load<V>(c: Codec<V>, data: Bytes): Result<V, Error> {
    if data == [] then Success(c.absent) else c.decode(data)
  }

  function Loaded<V>(c: Codec<V>, data: Result<Bytes, Error>): Result<V, Error> {
    if data.Failure? then Failure(data.error) else Load(c, data.value)
  }

  /** A key the trie does not have shows the absent value. */
  lemma UnknownIsAbsent<V>(c: Codec<V>, h: Hash, a: Abs, k: Key)
    requires Storable(h, k) && h(k) !in a.leaves
    ensures Loaded(c, StoredIn(h, a, k)) == Success(c.absent)
  {
  }

  /** Keys the trie can hold a value for. */
  predicate Storable(h: Hash, k: Key) {
    Hashable(k) && h(k) != HEAD_KEY && h(k) != TAIL_KEY
  }

  /** Loading what was encoded gives the value back. */
  ghost predicate Lawful<V(!new)>(c: Codec<V>) {
    forall v: V :: Load(c, c.encode(v)) == Success(v)
  }

  function AccountsCodec(h: Hash, keccak: Accounts.Keccak): Codec<Accounts.Account> {
    Codec((a: Accounts.Account) => Accounts.Encode(h, keccak, a), (b: Bytes) => Accounts.Decode(h, keccak, b),
          Accounts.Default(h, keccak))
  }

  lemma AccountsLawful(h: Hash, keccak: Accounts.Keccak)
    ensures Lawful(AccountsCodec(h, keccak))
  {
    forall a: Accounts.Account
      ensures Load(AccountsCodec(h, keccak), AccountsCodec(h, keccak).encode(a)) == Success(a)
    {
      Accounts.AccountRoundTrip(h, keccak, a);
    }
  }

  /** What an encoded account promises the batch: its nonce fits, and its size can be hashed. */
  lemma AccountsWritable(h: Hash, keccak: Accounts.Keccak, a: Accounts.Account)
    ensures Writable(AccountsCodec(h, keccak).encode(a))
  {
    Accounts.AccountRoundTrip(h, keccak, a);
    ReadableIff(h, keccak, Accounts.Encode(h, keccak, a));
  }

  /** So a cache of accounts can be flushed whenever there are indices enough. */
  lemma AccountsHaveRoom(c: TrieCache<Accounts.Account>)
    requires c.codec == AccountsCodec(c.raw.h, c.raw.keccak) && c.dirty <= c.cache.Keys
    ensures c.HasRoom() <==> c.raw.contents.free + |c.dirty| <= INDEX_LIMIT
  {
    hide Writable;
    forall k | k in c.dirty
      ensures Writable(c.codec.encode(c.cache[k]))
    {
      AccountsWritable(c.raw.h, c.raw.keccak, c.cache[k]);
    }
  }

  function BytesOf(o: Option<Bytes>): Bytes {
    if o.Some? then o.value else []
  }

  lemma ListsAll(us: Updates, batch: map<Key, Bytes>)
    requires Lists(us, batch)
    ensures batch.Keys == set j | 0 <= j < |us| :: us[j].0
  {
  }

  class TrieCache<V(!new, ==)> {
    const codec: Codec<V>
    const raw: LineaTrie
    var cache: map<Key, V>
    var dirty: set<Key>

    constructor (codec: Codec<V>, raw: LineaTrie)
      requires raw.Valid()
      ensures this.codec == codec && this.raw == raw && cache == map[] && dirty == {} && Coherent()
    {
      hide Holds, Agrees, Read;
      this.codec, this.raw := codec, raw;
      cache, dirty := map[], {};
    }

    /** The trie's value for a key. */
    function InTrie(k: Key): Result<V, Error>
      reads raw
    {
      Loaded(codec, raw.Stored(k))
    }

    /** What a caller sees under a key. */
    function View(k: Key): Result<V, Error>
      reads this, raw
    {
      if k in cache then Success(cache[k]) else InTrie(k)
    }

    /** Clean entries equal the trie; dirty keys are cached; cached keys are ones the trie can hold. */
    ghost predicate Coherent()
      reads this, raw
    {
      && raw.Valid() && dirty <= cache.Keys
      && (forall k | k in cache :: Storable(raw.h, k))
      && (forall k | k in cache && k !in dirty :: InTrie(k) == Success(cache[k]))
    }

    /** `with_key`: loads the entry if need be and lets `f` change it and raise the dirty flag. Only this
        key's view changes, and the cache stays coherent exactly when `f` flags what it changes. */
    method WithKey(k: Key, f: V -> (V, bool)) returns (r: Result<(), Error>)
      requires Coherent()
      modifies this
      ensures r.Failure? <==> old(View(k)).Failure?
      ensures r.Failure? ==> Coherent()
      ensures r.Success? ==>
        var v := old(View(k)).value;
        Coherent() <==> f(v).1 || f(v).0 == v || k in old(dirty)
      ensures r.Failure? ==> cache == old(cache) && dirty == old(dirty)
      ensures r.Success? ==> View(k) == Success(f(old(View(k)).value).0)
      ensures r.Success? ==> dirty == old(dirty) + if f(old(View(k)).value).1 then {k} else {}
      ensures forall j | j != k :: View(j) == old(View(j)) && (j in cache <==> j in old(cache))
    {
      hide Holds, Agrees, Read;
      var v: V;
      if k in cache {
        v := cache[k];
      } else {
        var data := raw.Stored(k);
        if data.Failure? {
          return Failure(data.error);
        }
        var loaded := Load(codec, data.value);
        if loaded.Failure? {
          return Failure(loaded.error);
        }
        raw.StoredIs(k);
        v := loaded.value;
      }
      var (v', changed) := f(v);
      cache := cache[k := v'];
      if changed {
        dirty := dirty + {k};
      }
      return Success(());
    }

    /** `revert` to a root whose tree the store still shows. It does nothing when the trie is there
        already and nothing is dirty; otherwise it forgets the cache. */
    method Revert(root: Word, index: Index, ghost target: Abs) returns (changed: bool)
      requires Coherent() && Agrees(raw.h, target) && RootOf(raw.h, target) == root
      requires Kept(raw.h, raw.st.store, [target]) && index == Ordered(target.leaves)
      modifies this, raw
      ensures Coherent() && raw.st.root == root && raw.st.store == old(raw.st.store) && dirty == {}
      ensures changed <==> !(old(raw.st.root) == root && old(dirty) == {})
      ensures changed ==> forall k :: View(k) == Loaded(codec, StoredIn(raw.h, target, k))
      ensures !changed ==> raw.st == old(raw.st) && forall k :: View(k) == old(View(k))
      ensures !changed ==> forall k :: View(k) == InTrie(k)
    {
      hide RootOf, Holds, Agrees, Kept, Read;
      if raw.st.root == root && dirty == {} {
        return false;
      }
      cache, dirty := map[], {};
      raw.NewRoot(root, index, target);
      forall k
        ensures View(k) == Loaded(codec, StoredIn(raw.h, target, k))
      {
        raw.StoredIs(k);
      }
      return true;
    }

    ghost function Batch(): map<Key, Bytes>
      reads this
      requires dirty <= cache.Keys
    {
      map k | k in dirty :: codec.encode(cache[k])
    }

    /** The dirty keys with their encoded values, in no particular order: the batch write sorts. */
    method Collect() returns (us: Updates)
      requires dirty <= cache.Keys
      ensures Lists(us, Batch()) && |us| == |dirty|
    {
      us := [];
      var keys := dirty;
      ghost var batch: map<Key, Bytes> := map[];
      while keys != {}
        invariant keys <= dirty && batch.Keys == dirty - keys && |us| + |keys| == |dirty|
        invariant forall k | k in batch :: batch[k] == codec.encode(cache[k])
        invariant Lists(us, batch)
        decreases keys
      {
        var k :| k in keys;
        var u := (k, codec.encode(cache[k]));
        ListsCons(u, us, batch);
        us := [u] + us;
        batch := batch[u.0 := u.1];
        keys := keys - {k};
      }
      assert batch == Batch();
    }

    /** Every dirty value can be read, can be hashed and finds an index. */
    ghost predicate HasRoom()
      reads this, raw
      requires dirty <= cache.Keys
    {
      && raw.contents.free + |dirty| <= INDEX_LIMIT
      && forall k | k in dirty :: Writable(codec.encode(cache[k]))
    }

    /** Writing the batch in sorted order hashes nothing that collides. */
    ghost predicate BatchCovered()
      reads this, raw
      requires dirty <= cache.Keys
    {
      forall us | Lists(us, Batch()) && Descending(us) ::
        Covered(raw.h, raw.mode, raw.contents, OpsOf(us), raw.inUse)
    }

    /** `flush`: afterwards nothing is dirty, every key in use still shows what it showed, and the
        trie now agrees with it. It goes through whenever the batch has room. */
    method Flush(ghost keys: iset<Key>) returns (ok: bool)
      requires Coherent() && Lawful(codec) && BatchCovered()
      requires KeysApart(raw.h, keys) && forall k | k in cache :: k in keys
      modifies this, raw
      ensures old(HasRoom()) ==> ok
      ensures ok ==> Coherent() && dirty == {} && cache == old(cache)
      ensures ok ==> forall k | k in keys :: View(k) == old(View(k)) && InTrie(k) == old(View(k))
    {
      hide Agrees, AbsRun, Lists, KeysApart, RootOf, ValueAt, Load, SortDesc, OpsOf, Lawful, KeysOk, Holds, Read,
        Covered, Descending, WriteAll, StoredIn, Writable, AllReadable;
      var us := Collect();
      ghost var before, batch := raw.contents, Batch();
      SortLists(us, batch);
      SortDescSorts(us);
      BatchKeysOk(raw.h, SortDesc(us), batch);
      if HasRoom() {
        RoomForBatch(us, batch);
      }
      forall k
        ensures old(InTrie(k)) == Loaded(codec, StoredIn(raw.h, before, k))
      {
        raw.StoredIs(k);
      }
      ok := raw.Update(us);
      if !ok {
        return;
      }
      ListsAll(us, batch);
      Undirty(us);
      FlushedTrie(keys, before, SortDesc(us), batch);
      forall k | k in keys
        ensures InTrie(k) == old(View(k))
      {
        raw.StoredIs(k);
        FlushedEntry(before, batch, old(dirty), k);
      }
    }

    /** Takes the written keys off the dirty set, one result at a time. */
    method Undirty(us: Updates)
      requires dirty == set j | 0 <= j < |us| :: us[j].0
      modifies this`dirty
      ensures dirty == {}
    {
      for i := 0 to |us|
        invariant dirty == old(dirty) - set j | 0 <= j < i :: us[j].0
      {
        dirty := dirty - {us[i].0};
      }
    }

    lemma RoomForBatch(us: Updates, batch: map<Key, Bytes>)
      requires Coherent() && HasRoom() && batch == Batch() && Lists(SortDesc(us), batch)
      requires |us| == |dirty| && multiset(SortDesc(us)) == multiset(us)
      requires KeysOk(raw.h, OpsOf(SortDesc(us)))
      ensures AbsRun(raw.h, raw.mode, raw.contents, OpsOf(SortDesc(us))).Some? && AllReadable(us)
    {
      hide Agrees, AbsRun, Lists, SortDesc, Holds, OpsOf, InTrie, Writable, AllReadable;
      ListsReadable(SortDesc(us), batch);
      SortKeepsReadable(us);
      assert |SortDesc(us)| == |multiset(SortDesc(us))| == |us|;
      OpsHashable(SortDesc(us), batch);
      OpsLength(SortDesc(us));
      RoomSuffices(raw.h, raw.mode, raw.contents, OpsOf(SortDesc(us)));
    }

    /** The trie value of one key before and after, read back through the codec. */
    lemma FlushedEntry(before: Abs, batch: map<Key, Bytes>, was: set<Key>, k: Key)
      requires Lawful(codec) && was <= cache.Keys && (k in cache ==> Storable(raw.h, k))
      requires batch == map j | j in was :: codec.encode(cache[j])
      requires k in cache && k !in was ==> Loaded(codec, StoredIn(raw.h, before, k)) == Success(cache[k])
      requires ValueAt(raw.contents, raw.h(k))
            == if k in batch then AsWritten(batch[k]) else ValueAt(before, raw.h(k))
      ensures Loaded(codec, StoredIn(raw.h, raw.contents, k))
           == if k in cache then Success(cache[k]) else Loaded(codec, StoredIn(raw.h, before, k))
    {
      if k in was {
        assert Load(codec, codec.encode(cache[k])) == Success(cache[k]);
      }
    }

    lemma FlushedTrie(keys: iset<Key>, before: Abs, us: Updates, batch: map<Key, Bytes>)
      requires AbsRun(raw.h, raw.mode, before, OpsOf(us)) == Some(raw.contents)
      requires Agrees(raw.h, before) && Lists(us, batch) && KeysOk(raw.h, OpsOf(us))
      requires KeysApart(raw.h, keys) && forall k | k in batch :: k in keys
      ensures forall k | k in keys ::
                ValueAt(raw.contents, raw.h(k))
                == if k in batch then AsWritten(batch[k]) else ValueAt(before, raw.h(k))
    {
      hide Lists, OpsOf, Agrees, AbsRun, KeysApart, KeysOk;
      forall k | k in keys
        ensures ValueAt(raw.contents, raw.h(k))
             == if k in batch then AsWritten(batch[k]) else ValueAt(before, raw.h(k))
      {
        RunIsMap(raw.h, raw.mode, before, OpsOf(us), raw.h(k));
        BatchWrites(raw.h, us, batch, k, ValueAt(before, raw.h(k)), keys);
      }
    }
  }
}
