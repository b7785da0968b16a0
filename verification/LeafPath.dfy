/** Leaf indices and the 42-byte paths that lead to them: one byte choosing the sub-trie, forty
    branch bits most significant first, and the leaf marker. */
module LeafPaths {
  import opened Words

  const ZK_TRIE_DEPTH: nat := 40
  const SUB_TRIE_ROOT_PATH: Byte := 1
  const VALUE_LEAF: Byte := 0x16
  const NEXT_FREE_LEAF: Byte := 0x17
  /** 2^40: the first leaf index that has no path of its own. */
  const INDEX_LIMIT: nat := 0x100_0000_0000

  predicate IsBitPath(bits: Bytes) {
    forall k | 0 <= k < |bits| :: bits[k] <= 1
  }

  /** `i` shifted right by `d` bits. */
  function Halve(d: nat, i: nat): nat
    decreases d, i
  {
    if d == 0 then i else Halve(d - 1, i / 2)
  }

  /** The `d` low-order bits of `i`, most significant first. */
  function Bits(d: nat, i: nat): (bits: Bytes)
    ensures |bits| == d && IsBitPath(bits)
    decreases d, i
  {
    if d == 0 then [] else Bits(d - 1, i / 2) + [i % 2]
  }

  /** The tree position reached from position `lo` by following `bits`. */
  function End(lo: nat, bits: Bytes): nat
    decreases |bits|
  {
    if bits == [] then lo else End(2 * lo + bits[0], bits[1..])
  }

  /** The path of a leaf index. */
  function LeafPath(idx: nat): (path: Bytes)
    ensures |path| == ZK_TRIE_DEPTH + 2
  {
    [SUB_TRIE_ROOT_PATH] + Bits(ZK_TRIE_DEPTH, idx) + [VALUE_LEAF]
  }

  lemma {:induction false} EndAppend(lo: nat, bits: Bytes, b: Byte)
    ensures End(lo, bits + [b]) == 2 * End(lo, bits) + b
    decreases |bits|
  {
    if bits == [] {
      assert End(lo, [b]) == End(2 * lo + b, []);
    } else {
      assert (bits + [b])[1..] == bits[1..] + [b];
      EndAppend(2 * lo + bits[0], bits[1..], b);
    }
  }

  lemma {:induction false} HalveStep(d: nat, i: nat)
    ensures Halve(d + 1, i) == Halve(d, i) / 2
  {
    if d > 0 {
      HalveStep(d - 1, i / 2);
    }
  }

  /** Walking the bits of `i` from the ancestor of `i` arrives at `i`. */
  lemma {:induction false} EndOfBits(d: nat, i: nat)
    ensures End(Halve(d, i), Bits(d, i)) == i
  {
    if d > 0 {
      EndOfBits(d - 1, i / 2);
      EndAppend(Halve(d, i), Bits(d - 1, i / 2), i % 2);
    }
  }

  /** The position reached lies under the position the walk started from. */
  lemma {:induction false} HalveOfEnd(lo: nat, bits: Bytes)
    requires IsBitPath(bits)
    ensures Halve(|bits|, End(lo, bits)) == lo
    decreases |bits|
  {
    if bits != [] {
      HalveOfEnd(2 * lo + bits[0], bits[1..]);
      HalveStep(|bits| - 1, End(lo, bits));
    }
  }

  lemma {:induction false} BitsOfEnd(lo: nat, bits: Bytes)
    requires IsBitPath(bits)
    ensures Bits(|bits|, End(lo, bits)) == bits
  {
    if bits != [] {
      var front, last := bits[..|bits| - 1], bits[|bits| - 1];
      assert bits == front + [last];
      EndAppend(lo, front, last);
      BitsOfEnd(lo, front);
    }
  }

  lemma {:induction false} HalveZeroIsSmall(d: nat, i: nat, limit: nat)
    requires limit == Pow2(d)
    ensures Halve(d, i) == 0 <==> i < limit
  {
    if d > 0 {
      HalveZeroIsSmall(d - 1, i / 2, Pow2(d - 1));
    }
  }

  lemma IndexHasPath(idx: nat)
    ensures Halve(ZK_TRIE_DEPTH, idx) == 0 <==> idx < INDEX_LIMIT
  {
    assert Pow2(10) == 0x400;
    assert Pow2(20) == 0x10_0000;
    assert Pow2(30) == 0x4000_0000;
    assert Pow2(40) == INDEX_LIMIT;
    HalveZeroIsSmall(ZK_TRIE_DEPTH, idx, INDEX_LIMIT);
  }

  lemma EndOfLeafBits(idx: nat)
    requires idx < INDEX_LIMIT
    ensures End(0, Bits(ZK_TRIE_DEPTH, idx)) == idx
  {
    IndexHasPath(idx);
    EndOfBits(ZK_TRIE_DEPTH, idx);
  }

  /** The branch byte read at height `d` is the matching bit of the index. */
  lemma {:induction false} BitsAt(n: nat, i: nat, d: nat)
    requires 1 <= d <= n
    ensures Bits(n, i)[n - d] == Halve(d - 1, i) % 2
  {
    if d > 1 {
      BitsAt(n - 1, i / 2, d - 1);
    }
  }

  lemma PathByte(idx: nat, d: nat)
    requires 1 <= d <= ZK_TRIE_DEPTH
    ensures LeafPath(idx)[ZK_TRIE_DEPTH + 1 - d] == Halve(d - 1, idx) % 2
    ensures Halve(d - 1, idx) == 2 * Halve(d, idx) + Halve(d - 1, idx) % 2
  {
    BitsAt(ZK_TRIE_DEPTH, idx, d);
    HalveStep(d - 1, idx);
  }

  /** The first two paths, byte by byte. */
  lemma FirstPaths()
    ensures LeafPath(0) == [1] + Zeros(40) + [22] && LeafPath(1) == [1] + Zeros(39) + [1, 22]
    ensures NEXT_FREE_LEAF == VALUE_LEAF + 1
  {
    hide Bits;
    BitsOfZero(40);
    BitsOfZero(39);
    BitsStep(39, 1);
    assert [1] + (Zeros(39) + [1]) + [22] == [1] + Zeros(39) + [1, 22];
  }

  lemma BitsStep(d: nat, i: nat)
    ensures Bits(d + 1, i) == Bits(d, i / 2) + [i % 2]
  {
  }

  lemma {:induction false} BitsOfZero(d: nat)
    ensures Bits(d, 0) == Zeros(d)
  {
    if d > 0 {
      BitsOfZero(d - 1);
    }
  }

  /** `LeafPath` is onto the framed forty-bit paths ... */
  lemma LeafPathOnto(bits: Bytes)
    requires |bits| == ZK_TRIE_DEPTH && IsBitPath(bits)
    ensures End(0, bits) < INDEX_LIMIT
    ensures LeafPath(End(0, bits)) == [SUB_TRIE_ROOT_PATH] + bits + [VALUE_LEAF]
  {
    HalveOfEnd(0, bits);
    IndexHasPath(End(0, bits));
    BitsOfEnd(0, bits);
  }

  /** ... and distinct indices part at a branch level, never at the frame. */
  lemma LeafPathsDiverge(i: nat, j: nat)
    requires i < INDEX_LIMIT && j < INDEX_LIMIT && i != j
    ensures var k := PrefixLen(LeafPath(i), LeafPath(j));
            1 <= k <= ZK_TRIE_DEPTH && LeafPath(i)[k] != LeafPath(j)[k]
  {
    EndOfLeafBits(i);
    EndOfLeafBits(j);
    var a, b := LeafPath(i), LeafPath(j);
    var k := PrefixLen(a, b);
    assert a[0] == b[0] == SUB_TRIE_ROOT_PATH;
    assert a[1..41] == Bits(ZK_TRIE_DEPTH, i) && b[1..41] == Bits(ZK_TRIE_DEPTH, j);
    assert a[1..41] != b[1..41];
    assert a[41] == b[41] == VALUE_LEAF;
  }

  /** Length of the longest common prefix. */
  function PrefixLen(a: Bytes, b: Bytes): (n: nat)
    ensures n <= |a| && n <= |b| && a[..n] == b[..n]
    ensures n < |a| && n < |b| ==> a[n] != b[n]
  {
    if a == [] || b == [] || a[0] != b[0] then 0
    else
      var n := 1 + PrefixLen(a[1..], b[1..]);
      assert a[..n] == [a[0]] + a[1..][..n - 1];
      assert b[..n] == [b[0]] + b[1..][..n - 1];
      n
  }

  lemma PrefixLenUnique(a: Bytes, b: Bytes, n: nat)
    requires n <= |a| && n <= |b| && a[..n] == b[..n]
    requires n < |a| && n < |b| ==> a[n] != b[n]
    ensures PrefixLen(a, b) == n
  {
    var m := PrefixLen(a, b);
    assert forall k | 0 <= k < m :: a[..m][k] == b[..m][k];
    assert forall k | 0 <= k < n :: a[..n][k] == b[..n][k];
  }

  method CommonPrefix(a: Bytes, b: Bytes) returns (n: nat)
    ensures n == PrefixLen(a, b)
  {
    var len := if |a| < |b| then |a| else |b|;
    for i := 0 to len
      invariant a[..i] == b[..i]
    {
      if a[i] != b[i] {
        PrefixLenUnique(a, b, i);
        return i;
      }
      assert a[..i + 1] == a[..i] + [a[i]] && b[..i + 1] == b[..i] + [b[i]];
    }
    PrefixLenUnique(a, b, len);
    return len;
  }

  lemma {:induction false} HalveStaysZero(k: nat, d: nat, i: nat)
    requires k <= d && Halve(k, i) == 0
    ensures Halve(d, i) == 0
    decreases d
  {
    if k < d {
      HalveStaysZero(k, d - 1, i);
      HalveStep(d - 1, i);
    }
  }

  lemma {:induction false} BitsAlias(d: nat, i: nat)
    requires i >= Pow2(d)
    ensures Bits(d, i) == Bits(d, i - Pow2(d))
  {
    if d > 0 {
      BitsAlias(d - 1, i / 2);
    }
  }

  /** The path shows the forty low bits only. */
  lemma LeafPathAlias(idx: nat)
    requires idx >= INDEX_LIMIT
    ensures LeafPath(idx) == LeafPath(idx - INDEX_LIMIT)
  {
    assert Pow2(10) == 0x400;
    assert Pow2(20) == 0x10_0000;
    assert Pow2(30) == 0x4000_0000;
    assert Pow2(40) == INDEX_LIMIT;
    BitsAlias(ZK_TRIE_DEPTH, idx);
  }

  /** The cursor's last step before it would leave the path has one bit to place. */
  lemma TopBitIsOne(idx: nat)
    ensures Halve(ZK_TRIE_DEPTH + 1, idx) == 0 <==> idx < 2 * INDEX_LIMIT
    ensures Halve(ZK_TRIE_DEPTH, idx) / 2 == Halve(ZK_TRIE_DEPTH + 1, idx)
  {
    HalveStep(ZK_TRIE_DEPTH, idx);
    assert Halve(ZK_TRIE_DEPTH + 1, idx) == Halve(ZK_TRIE_DEPTH, idx / 2);
    IndexHasPath(idx / 2);
  }

  /** Fills the path from its last branch bit upwards while the shifted index is non-zero. The cursor
      steps below zero exactly when the index needs a forty-first bit. With overflow checks on, as the
      rest of the model assumes, that panics. With them off the cursor wraps; one more bit falls on the
      sub-trie byte, which is 1 anyway, and any further write is out of bounds and panics. */
  method GetLeafPath(idx: nat, checks: bool) returns (r: Option<Bytes>)
    ensures r == if idx < INDEX_LIMIT || (!checks && idx < 2 * INDEX_LIMIT) then Some(LeafPath(idx)) else None
  {
    var path := new Byte[ZK_TRIE_DEPTH + 2](_ => 0);
    path[0] := SUB_TRIE_ROOT_PATH;
    var value := idx;
    var i := path.Length - 2;
    IndexHasPath(idx);
    TopBitIsOne(idx);
    while true
      invariant 0 <= i <= ZK_TRIE_DEPTH
      invariant value == Halve(ZK_TRIE_DEPTH - i, idx) && (i < ZK_TRIE_DEPTH ==> value > 0)
      invariant path[0] == SUB_TRIE_ROOT_PATH
      invariant forall j | 1 <= j <= i :: path[j] == 0
      invariant forall j | i < j <= ZK_TRIE_DEPTH :: path[j] == Halve(ZK_TRIE_DEPTH - j, idx) % 2
      decreases i
    {
      HalveStep(ZK_TRIE_DEPTH - i, idx);
      path[i] := value % 2;
      value := value / 2;
      if i == 0 {
        if checks || value > 0 {
          return None;
        }
        break;
      }
      i := i - 1;
      if value == 0 {
        break;
      }
    }
    path[path.Length - 1] := VALUE_LEAF;
    forall j | 1 <= j <= ZK_TRIE_DEPTH
      ensures path[j] == LeafPath(idx)[j]
    {
      PathByte(idx, ZK_TRIE_DEPTH + 1 - j);
      if j <= i {
        HalveStaysZero(ZK_TRIE_DEPTH - i, ZK_TRIE_DEPTH - j, idx);
      }
    }
    if i > 0 || Halve(ZK_TRIE_DEPTH, idx) == 0 {
      HalveStaysZero(ZK_TRIE_DEPTH - i, ZK_TRIE_DEPTH, idx);
    }
    assert path[..] == LeafPath(idx);
    return Some(path[..]);
  }

  /** The counter stored in the left half of the top node. */
  function ParseNodeIndex(n: Bytes): Result<nat, ()>
  {
    if |n| == 0 then Success(0)
    else if |n| < 8 then Failure(())
    else Success(FromBe(n[|n| - 8..]))
  }

  /** No bytes read as 0; fewer than eight panic. */
  lemma ShortIndex(n: Bytes)
    requires |n| < 8
    ensures ParseNodeIndex(n) == if n == [] then Success(0) else Failure(())
  {
  }

  /** Reading the last eight bytes of a 32-byte number is reduction modulo 2^64. */
  lemma ParseNodeIndexIsLow64(x: Word)
    ensures ParseNodeIndex(Be32(x)) == Success(x % TWO_TO_64)
  {
    var b := Be32(x);
    assert b == b[..24] + b[24..];
    FromBeConcat(b[..24], b[24..]);
    Be32RoundTrip(x);
    Pow256Of32();
    ModUnique(x, TWO_TO_64, FromBe(b[..24]), FromBe(b[24..]));
  }
}
