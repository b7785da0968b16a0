/** Bytes, 32-byte words and the big-endian codec between them, plus the Option and Result
    types every other module uses. */
module Words {
  datatype Option<+T> = None | Some(value: T)

  /** What a Rust function hands back: a value, an `Err`, or a panic (recorded as an error). */
  datatype Result<+T, +E> = Success(value: T) | Failure(error: E) {
    predicate IsFailure() {
      Failure?
    }
    function PropagateFailure<U>(): (r: Result<U, E>)
      requires Failure?
    {
      Failure(error)
    }
    function Extract(): T
      requires Success?
    {
      value
    }
  }

  type Byte = x: int | 0 <= x < 256
  type Bytes = seq<Byte>

  const TWO_TO_64: nat := 0x1_0000_0000_0000_0000
  const TWO_TO_256: nat :=
    0x1_0000000000000000_0000000000000000_0000000000000000_0000000000000000

  /** SH256 and SU256 alike: 32 bytes, read big-endian. */
  type Word = x: int | 0 <= x < TWO_TO_256

  function Pow256(k: nat): (p: nat)
    ensures p > 0
  {
    if k == 0 then 1 else 256 * Pow256(k - 1)
  }

  function Pow2(d: nat): (p: nat)
    ensures p > 0
  {
    if d == 0 then 1 else 2 * Pow2(d - 1)
  }

  /** The `w` low-order bytes of `n`, most significant first. */
  function Be(n: nat, w: nat): (b: Bytes)
    ensures |b| == w
    decreases w, n
  {
    if w == 0 then [] else Be(n / 256, w - 1) + [n % 256]
  }

  function FromBe(b: Bytes): (n: nat)
    ensures n < Pow256(|b|)
  {
    if b == [] then 0 else FromBe(b[..|b| - 1]) * 256 + b[|b| - 1]
  }

  function Zeros(n: nat): Bytes {
    seq(n, i => 0)
  }

  function Be32(x: Word): (b: Bytes)
    ensures |b| == 32
  {
    Be(x, 32)
  }

  lemma {:induction false} FromBeOfBe(n: nat, w: nat)
    ensures FromBe(Be(n, w)) == n % Pow256(w)
  {
    if w == 0 {
    } else {
      var front := Be(n / 256, w - 1);
      assert Be(n, w)[..w - 1] == front;
      FromBeOfBe(n / 256, w - 1);
      DivModSplit(n, Pow256(w - 1));
    }
  }

  lemma DivModSplit(n: nat, p: nat)
    requires p > 0
    ensures (n / 256) % p * 256 + n % 256 == n % (256 * p)
  {
    var q, r := n / 256 / p, (n / 256) % p;
    assert n / 256 == q * p + r;
    var low := r * 256 + n % 256;
    assert n == q * (256 * p) + low by {
      assert n == 256 * (q * p + r) + n % 256;
      assert 256 * (q * p) == q * (256 * p);
    }
    assert 0 <= low < 256 * p by {
      assert r <= p - 1;
      assert r * 256 <= (p - 1) * 256;
    }
    ModUnique(n, 256 * p, q, low);
  }

  lemma ModUnique(n: int, m: int, q: int, r: int)
    requires m > 0 && n == q * m + r && 0 <= r < m
    ensures n % m == r && n / m == q
  {
    var q', r' := n / m, n % m;
    assert n == q' * m + r';
    assert (q - q') * m == r' - r;
    if q > q' {
      MulMonotone(1, q - q', m);
    } else if q < q' {
      MulMonotone(1, q' - q, m);
    }
  }

  lemma MulMonotone(a: int, b: int, m: int)
    requires a <= b && m >= 0
    ensures a * m <= b * m
  {
  }

  lemma {:induction false} BeOfFromBe(b: Bytes)
    ensures Be(FromBe(b), |b|) == b
  {
    if b == [] {
    } else {
      var front, last := b[..|b| - 1], b[|b| - 1];
      ModUnique(FromBe(b), 256, FromBe(front), last);
      BeOfFromBe(front);
    }
  }

  lemma {:induction false} Pow256Add(a: nat, b: nat)
    ensures Pow256(a + b) == Pow256(a) * Pow256(b)
  {
    if a > 0 {
      Pow256Add(a - 1, b);
      assert Pow256(a + b) == 256 * Pow256(a - 1 + b);
    }
  }

  lemma Pow256Of32()
    ensures Pow256(32) == TWO_TO_256 && Pow256(8) == TWO_TO_64
  {
    assert Pow256(4) == 0x1_0000_0000;
    Pow256Add(4, 4);
    Pow256Add(8, 8);
    Pow256Add(16, 16);
  }

  lemma {:induction false} Be32RoundTrip(x: Word)
    ensures FromBe(Be32(x)) == x
  {
    FromBeOfBe(x, 32);
    Pow256Of32();
    ModUnique(x, TWO_TO_256, 0, x);
  }

  lemma FromBe32(b: Bytes)
    requires |b| == 32
    ensures FromBe(b) < TWO_TO_256
    ensures Be32(FromBe(b)) == b
  {
    Pow256Of32();
    BeOfFromBe(b);
  }

  lemma ZerosLength(n: nat)
    ensures |Zeros(n)| == n
  {
  }

  lemma {:induction false} FromBeZeros(n: nat)
    ensures FromBe(Zeros(n)) == 0
    decreases n
  {
    if n > 0 {
      assert Zeros(n)[..n - 1] == Zeros(n - 1);
      FromBeZeros(n - 1);
    }
  }

  lemma {:induction false} FromBeConcat(a: Bytes, b: Bytes)
    ensures FromBe(a + b) == FromBe(a) * Pow256(|b|) + FromBe(b)
    decreases |b|
  {
    if b == [] {
      assert a + b == a;
    } else {
      var front, last := b[..|b| - 1], b[|b| - 1];
      assert (a + b)[..|a + b| - 1] == a + front;
      FromBeConcat(a, front);
      MulOut(FromBe(a), Pow256(|front|), FromBe(front));
    }
  }

  lemma MulOut(x: int, y: int, z: int)
    ensures (x * y + z) * 256 == x * (256 * y) + z * 256
  {
  }

  /** A 32-byte slice read as a word. */
  function ToWord(b: Bytes): (x: Word)
    requires |b| == 32
    ensures Be32(x) == b
  {
    FromBe32(b);
    FromBe(b)
  }

  lemma ToWordOfBe32(x: Word)
    ensures ToWord(Be32(x)) == x
  {
    Be32RoundTrip(x);
  }

  /** Two encoded words are equal only if the words are. */
  lemma Be32PairInjective(a: Word, b: Word, c: Word, d: Word)
    requires Be32(a) + Be32(b) == Be32(c) + Be32(d)
    ensures a == c && b == d
  {
    assert (Be32(a) + Be32(b))[..32] == Be32(a) && (Be32(c) + Be32(d))[..32] == Be32(c);
    assert (Be32(a) + Be32(b))[32..] == Be32(b) && (Be32(c) + Be32(d))[32..] == Be32(d);
    Be32RoundTrip(a);
    Be32RoundTrip(b);
    Be32RoundTrip(c);
    Be32RoundTrip(d);
  }

  lemma SliceSplit(m: Bytes, a: nat, b: nat, c: nat)
    requires a <= b <= c <= |m|
    ensures m[a..c] == m[a..b] + m[b..c]
  {
  }

  lemma RemainderAtMost(x: nat, m: nat)
    requires m > 0
    ensures x % m <= x
  {
    assert x == (x / m) * m + x % m;
    MulMonotone(0, x / m, m);
  }

  lemma SliceOfSlice(m: Bytes, a: nat, b: nat, i: nat, j: nat)
    requires i <= j && a + j <= b <= |m|
    ensures m[a..b][i..j] == m[a + i..a + j]
  {
    var s := m[a..b];
    assert |s[i..j]| == |m[a + i..a + j]|;
    forall k | 0 <= k < j - i ensures s[i..j][k] == m[a + i..a + j][k] {
    }
  }
}
