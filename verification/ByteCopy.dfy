/** Byte strings in EVM memory: word-wise copying with a tail mask, substrings, and fixed-width reads. */
module ByteCopy {
  import opened Words

  // ----- words in memory; masking whole low bytes is arithmetic modulo a power of 256 -----

  /** `and(x, 256^k - 1)` */
  function LowBytes(x: nat, k: nat): nat {
    x % Pow256(k)
  }

  /** `and(x, not(256^k - 1))` */
  function HighBytes(x: nat, k: nat): nat {
    RemainderAtMost(x, Pow256(k));
    x - x % Pow256(k)
  }

  function MLoad(m: Bytes, p: nat): (x: Word)
    requires p + 32 <= |m|
  {
    FromBe32(m[p..p + 32]);
    FromBe(m[p..p + 32])
  }

  lemma LowOfConcat(a: Bytes, b: Bytes)
    ensures LowBytes(FromBe(a + b), |b|) == FromBe(b)
    ensures HighBytes(FromBe(a + b), |b|) == FromBe(a) * Pow256(|b|)
    ensures FromBe(a + b) / Pow256(|b|) == FromBe(a)
  {
    FromBeConcat(a, b);
    ModUnique(FromBe(a + b), Pow256(|b|), FromBe(a), FromBe(b));
  }

  /** The tail mask splices the first n bytes of one word onto the rest of another. */
  lemma MaskSplices(s: Bytes, d: Bytes, n: nat)
    requires |s| == |d| == 32 && n <= 32
    ensures LowBytes(FromBe(d), 32 - n) + HighBytes(FromBe(s), 32 - n) == FromBe(s[..n] + d[n..])
  {
    hide FromBe, LowBytes, HighBytes;
    assert s == s[..n] + s[n..] && d == d[..n] + d[n..];
    LowOfConcat(s[..n], s[n..]);
    LowOfConcat(d[..n], d[n..]);
    FromBeConcat(s[..n], d[n..]);
  }

  method MStore(mem: array<Byte>, p: nat, x: Word)
    requires p + 32 <= mem.Length
    modifies mem
    ensures mem[..] == old(mem[..p]) + Be32(x) + old(mem[p + 32..])
  {
    var b := Be32(x);
    for i := 0 to 32
      invariant forall k :: 0 <= k < mem.Length && !(p <= k < p + i) ==> mem[k] == old(mem[k])
      invariant forall k :: 0 <= k < i ==> mem[p + k] == b[k]
    {
      mem[p + i] := b[i];
    }
  }

  // ----- memcpy -----

  /** The memory with `len` bytes from src also at dest, and nothing else changed. */
  function Copied(m: Bytes, dest: nat, src: nat, len: nat): Bytes
    requires dest + len <= |m| && src + len <= |m|
  {
    m[..dest] + m[src..src + len] + m[dest + len..]
  }

  predicate CopySafe(dest: nat, src: nat, len: nat) {
    dest <= src || src + len <= dest
  }

  /** Copying k bytes does not touch the source bytes still to be read. */
  lemma SourceIntact(m: Bytes, dest: nat, src: nat, len: nat, k: nat, n: nat)
    requires dest + len <= |m| && src + len <= |m| && CopySafe(dest, src, len) && k + n <= len
    ensures Copied(m, dest, src, k)[src + k..src + k + n] == m[src + k..src + k + n]
  {
    var c := Copied(m, dest, src, k);
    forall i | src + k <= i < src + k + n ensures c[i] == m[i] {
    }
  }

  lemma CopyMore(m: Bytes, dest: nat, src: nat, k: nat, n: nat)
    requires dest + k + n <= |m| && src + k + n <= |m|
    ensures
      var c := Copied(m, dest, src, k);
      c[..dest + k] + m[src + k..src + k + n] + c[dest + k + n..] == Copied(m, dest, src, k + n)
  {
    var c := Copied(m, dest, src, k);
    assert c[..dest + k] == m[..dest] + m[src..src + k];
    assert c[dest + k + n..] == m[dest + k + n..];
    assert m[src..src + k] + m[src + k..src + k + n] == m[src..src + k + n];
  }

  /** Whole words while they last, then one masked word. Exactly `len` bytes move and every other byte
      stays, the last word's included, also when the remainder is 0. The memory array is long enough for the
      words read and written past either end. */
  method Memcpy(mem: array<Byte>, dest0: nat, src0: nat, len0: nat)
    requires dest0 + len0 + 32 <= mem.Length && src0 + len0 + 32 <= mem.Length
    requires CopySafe(dest0, src0, len0)
    modifies mem
    ensures mem[..] == Copied(old(mem[..]), dest0, src0, len0)
  {
    hide FromBe, Copied, MLoad;
    ghost var m := mem[..];
    var dest, src, len := dest0, src0, len0;
    NothingCopied(m, dest, src);
    while len >= 32
      invariant dest == dest0 + (len0 - len) && src == src0 + (len0 - len) && 0 <= len <= len0
      invariant mem[..] == Copied(m, dest0, src0, len0 - len)
    {
      WordStep(m, mem[..], dest0, src0, len0, len0 - len);
      MStore(mem, dest, MLoad(mem[..], src));
      dest, src, len := dest + 32, src + 32, len - 32;
    }
    TailSplice(m, mem[..], dest0, src0, len0, len0 - len);
    var srcpart, destpart := HighBytes(MLoad(mem[..], src), 32 - len), LowBytes(MLoad(mem[..], dest), 32 - len);
    MStore(mem, dest, destpart + srcpart);
  }

  /** Storing the word at src + k at dest + k, after k bytes are copied. */
  lemma WordStep(m: Bytes, c: Bytes, dest0: nat, src0: nat, len0: nat, k: nat)
    requires dest0 + len0 <= |m| && src0 + len0 <= |m| && CopySafe(dest0, src0, len0)
    requires k + 32 <= len0 && c == Copied(m, dest0, src0, k)
    ensures |c| == |m|
    ensures c[..dest0 + k] + Be32(MLoad(c, src0 + k)) + c[dest0 + k + 32..] == Copied(m, dest0, src0, k + 32)
  {
    hide FromBe, Copied;
    CopiedLength(m, dest0, src0, k);
    SourceIntact(m, dest0, src0, len0, k, 32);
    CopyMore(m, dest0, src0, k, 32);
    FromBe32(c[src0 + k..src0 + k + 32]);
  }

  lemma NothingCopied(m: Bytes, dest: nat, src: nat)
    requires dest <= |m| && src <= |m|
    ensures Copied(m, dest, src, 0) == m
  {
  }

  lemma TailSplice(m: Bytes, c: Bytes, dest0: nat, src0: nat, len0: nat, k: nat)
    requires dest0 + len0 + 32 <= |m| && src0 + len0 + 32 <= |m| && CopySafe(dest0, src0, len0)
    requires k <= len0 < k + 32 && c == Copied(m, dest0, src0, k)
    ensures |c| == |m|
    ensures
      var n := len0 - k;
      var w := LowBytes(MLoad(c, dest0 + k), 32 - n) + HighBytes(MLoad(c, src0 + k), 32 - n);
      && 0 <= w < TWO_TO_256
      && c[..dest0 + k] + Be32(w) + c[dest0 + k + 32..] == Copied(m, dest0, src0, len0)
  {
    hide FromBe, Copied, LowBytes, HighBytes;
    CopiedLength(m, dest0, src0, k);
    var n := len0 - k;
    var s, d := c[src0 + k..src0 + k + 32], c[dest0 + k..dest0 + k + 32];
    MaskSplices(s, d, n);
    var spliced := s[..n] + d[n..];
    FromBe32(spliced);
    SourceIntact(m, dest0, src0, len0, k, n);
    CopyMore(m, dest0, src0, k, n);
    assert s[..n] == m[src0 + k..src0 + len0];
    assert d[n..] + c[dest0 + k + 32..] == c[dest0 + len0..];
    assert c[..dest0 + k] + (s[..n] + d[n..]) + c[dest0 + k + 32..]
        == c[..dest0 + k] + s[..n] + (d[n..] + c[dest0 + k + 32..]);
  }

  lemma CopiedLength(m: Bytes, dest: nat, src: nat, len: nat)
    requires dest + len <= |m| && src + len <= |m|
    ensures |Copied(m, dest, src, len)| == |m|
  {
  }

  // ----- byte strings: 32 bytes of length, then the content -----

  ghost predicate HoldsBytes(m: Bytes, p: nat, b: Bytes) {
    p + 32 + |b| <= |m| && |b| < TWO_TO_256 && m[p..p + 32] == Be32(|b|) && m[p + 32..p + 32 + |b|] == b
  }

  function RoundUp(len: nat): nat {
    (len + 31) / 32 * 32
  }

  /** `new bytes(len)` at the free pointer: the length word, and zeros up to a word boundary. */
  method NewBytes(mem: array<Byte>, free: nat, len: Word)
    requires free + 32 + RoundUp(len) <= mem.Length
    modifies mem
    ensures mem[..] == old(mem[..free]) + Be32(len) + Zeros(RoundUp(len)) + old(mem[free + 32 + RoundUp(len)..])
  {
    ghost var m := mem[..];
    MStore(mem, free, len);
    ghost var m1 := mem[..];
    assert m1 == m[..free] + Be32(len) + m[free + 32..];
    assert m1[..free + 32] == m[..free] + Be32(len) && m1[free + 32..] == m[free + 32..];
    var n := RoundUp(len);
    for i := 0 to n
      invariant mem[..] == m1[..free + 32] + Zeros(i) + m1[free + 32 + i..]
    {
      mem[free + 32 + i] := 0;
    }
  }

  /** `substring`: reverts exactly when the range leaves the string; otherwise the new byte string is the
      slice, and everything below the free pointer and past the new string's last word is as before. */
  method Substring(mem: array<Byte>, self: nat, free: nat, offset: Word, len: Word, ghost b: Bytes)
    returns (ok: bool)
    requires HoldsBytes(mem[..], self, b) && self + 32 + |b| <= free
    requires offset + len <= |b| ==> free + RoundUp(len) + 64 <= mem.Length
    modifies mem
    ensures ok <==> offset + len <= |b|
    ensures !ok ==> mem[..] == old(mem[..])
    ensures ok ==> HoldsBytes(mem[..], free, b[offset..offset + len])
    ensures ok ==> mem[..free] == old(mem[..free]) && HoldsBytes(mem[..], self, b)
    ensures ok ==> mem[free + 32 + RoundUp(len)..] == old(mem[free + 32 + RoundUp(len)..])
  {
    hide Copied;
    ghost var m := mem[..];
    var length := MLoad(mem[..], self);
    Be32RoundTrip(|b|);
    if offset + len > length {
      return false;
    }
    NewBytes(mem, free, len);
    ghost var m1 := mem[..];
    Memcpy(mem, free + 32, self + 32 + offset, len);
    SubstringHolds(m, m1, mem[..], self, free, offset, len, b);
    return true;
  }

  lemma SubstringHolds(m: Bytes, m1: Bytes, m2: Bytes, self: nat, free: nat, offset: nat, len: nat, b: Bytes)
    requires HoldsBytes(m, self, b) && self + 32 + |b| <= free && offset + len <= |b|
    requires free + RoundUp(len) + 64 <= |m| && len < TWO_TO_256
    requires m1 == m[..free] + Be32(len) + Zeros(RoundUp(len)) + m[free + 32 + RoundUp(len)..]
    requires m2 == Copied(m1, free + 32, self + 32 + offset, len)
    ensures HoldsBytes(m2, free, b[offset..offset + len])
    ensures m2[..free] == m[..free] && HoldsBytes(m2, self, b)
    ensures m2[free + 32 + RoundUp(len)..] == m[free + 32 + RoundUp(len)..]
  {
    hide HoldsBytes, Copied, RoundUp;
    var r := RoundUp(len);
    assert len <= r by { RoundUpAbove(len); }
    Allocated(m, m1, free, len, r);
    CopiedParts(m1, m2, free + 32, self + 32 + offset, len, r);
    assert m2[..free] == m2[..free + 32][..free] == m1[..free];
    assert m2[free..free + 32] == m2[..free + 32][free..] == m1[free..free + 32];
    KeptBelow(m, m1, self, free, b);
    KeptBelow(m, m2, self, free, b);
    SourceSlice(m1, self, offset, len, b);
    HoldsBytesFrom(m2, free, b[offset..offset + len]);
  }

  /** The next multiple of 32. */
  lemma RoundUpAbove(len: nat)
    ensures len <= RoundUp(len) < len + 32 && RoundUp(len) % 32 == 0
  {
  }

  lemma Allocated(m: Bytes, m1: Bytes, free: nat, len: Word, r: nat)
    requires free + 32 + r <= |m| && m1 == m[..free] + Be32(len) + Zeros(r) + m[free + 32 + r..]
    ensures |m1| == |m| && m1[..free] == m[..free] && m1[free..free + 32] == Be32(len)
    ensures m1[free + 32 + r..] == m[free + 32 + r..]
  {
  }

  lemma CopiedParts(m1: Bytes, m2: Bytes, dest: nat, src: nat, len: nat, r: nat)
    requires dest + r <= |m1| && len <= r && src + len <= |m1| && m2 == Copied(m1, dest, src, len)
    ensures |m2| == |m1| && m2[..dest] == m1[..dest] && m2[dest..dest + len] == m1[src..src + len]
    ensures m2[dest + r..] == m1[dest + r..]
  {
  }

  /** A byte string below the free pointer survives. */
  lemma KeptBelow(m: Bytes, m': Bytes, self: nat, free: nat, b: Bytes)
    requires HoldsBytes(m, self, b) && self + 32 + |b| <= free <= |m| == |m'| && m'[..free] == m[..free]
    ensures HoldsBytes(m', self, b)
  {
    SliceOfSlice(m, 0, free, self, self + 32);
    SliceOfSlice(m', 0, free, self, self + 32);
    SliceOfSlice(m, 0, free, self + 32, self + 32 + |b|);
    SliceOfSlice(m', 0, free, self + 32, self + 32 + |b|);
  }

  lemma SourceSlice(m: Bytes, self: nat, offset: nat, len: nat, b: Bytes)
    requires HoldsBytes(m, self, b) && offset + len <= |b|
    ensures self + 32 + |b| <= |m| && m[self + 32 + offset..self + 32 + offset + len] == b[offset..offset + len]
  {
    SliceOfSlice(m, self + 32, self + 32 + |b|, offset, offset + len);
  }

  lemma HoldsBytesFrom(m: Bytes, p: nat, b: Bytes)
    requires |b| < TWO_TO_256 && p + 32 + |b| <= |m|
    requires m[p..p + 32] == Be32(|b|) && m[p + 32..p + 32 + |b|] == b
    ensures HoldsBytes(m, p, b)
  {
  }

  // ----- fixed-width reads -----

  /** `readUint16`: the word that ends with the two bytes wanted, whose front is whatever precedes them. */
  function ReadUint16(m: Bytes, self: nat, b: Bytes, idx: nat): Option<nat>
    requires self + 34 + |b| <= |m|
  {
    if idx + 2 <= |b| then Some(LowBytes(MLoad(m, self + 2 + idx), 2)) else None
  }

  lemma ReadUint16Reads(m: Bytes, self: nat, b: Bytes, idx: nat)
    requires self + 34 + |b| <= |m| && HoldsBytes(m, self, b)
    ensures ReadUint16(m, self, b, idx) == if idx + 2 <= |b| then Some((b[idx] as int) * 256 + b[idx + 1]) else None
  {
    hide FromBe, LowBytes;
    if idx + 2 <= |b| {
      var p := self + 2 + idx;
      var last := b[idx..idx + 2];
      SliceOfSlice(m, self + 32, self + 32 + |b|, idx, idx + 2);
      SliceSplit(m, p, p + 30, p + 32);
      LowOfConcat(m[p..p + 30], last);
      TwoBytes(last);
    }
  }

  lemma TwoBytes(b: Bytes)
    requires |b| == 2
    ensures FromBe(b) == (b[0] as int) * 256 + b[1]
  {
    var front := b[..1];
    assert b[..|b| - 1] == front && front[..|front| - 1] == [];
    assert FromBe(front) == b[0];
  }

  /** `readBytesN`: the n bytes wanted, left-aligned in a word and the bytes after them masked out. */
  function ReadBytesN(m: Bytes, self: nat, b: Bytes, idx: nat, n: nat): Option<nat>
    requires self + 64 + |b| <= |m|
  {
    if n <= 32 && idx + n <= |b| then Some(HighBytes(MLoad(m, self + 32 + idx), 32 - n)) else None
  }

  /** The word does not depend on what follows the range, and shifting it right reads the number. */
  lemma ReadBytesNReads(m: Bytes, self: nat, b: Bytes, idx: nat, n: nat)
    requires self + 64 + |b| <= |m| && HoldsBytes(m, self, b)
    ensures ReadBytesN(m, self, b, idx, n).Some? <==> n <= 32 && idx + n <= |b|
    ensures n <= 32 && idx + n <= |b| ==>
      var x := ReadBytesN(m, self, b, idx, n).value;
      x == FromBe(b[idx..idx + n]) * Pow256(32 - n) && x / Pow256(32 - n) == FromBe(b[idx..idx + n])
  {
    hide FromBe, HighBytes, LowBytes;
    if n <= 32 && idx + n <= |b| {
      var p := self + 32 + idx;
      var wanted, after := b[idx..idx + n], m[p + n..p + 32];
      SliceOfSlice(m, self + 32, self + 32 + |b|, idx, idx + n);
      SliceSplit(m, p, p + n, p + 32);
      LowOfConcat(wanted, after);
      ModUnique(FromBe(wanted) * Pow256(32 - n), Pow256(32 - n), FromBe(wanted), 0);
    }
  }
}
