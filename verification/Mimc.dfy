/** The MiMC sponge of src/common/mimc: a keyed permutation x -> x^17 with round constants, chained
    over 32-byte blocks. The round constants and the modulus are parameters. */
module Mimc {
  import opened Words
  import opened ModArith
  import opened Nodes

  // ----- the cipher -----

  /** t^17 by four squarings and a product. */
  function Seventeenth(t: nat, p: nat): nat
    requires p > 0
  {
    var t2 := MulMod(t, t, p);
    var t4 := MulMod(t2, t2, p);
    var t8 := MulMod(t4, t4, p);
    MulMod(MulMod(t8, t8, p), t, p)
  }

  function Round(key: nat, m: nat, c: nat, p: nat): nat
    requires p > 0
  {
    Seventeenth((key + m + c) % p, p)
  }

  /** One round per constant, in order. */
  function Rounds(key: nat, m: nat, cs: seq<nat>, p: nat): nat
    requires p > 0
  {
    if cs == [] then m else Round(key, Rounds(key, m, cs[..|cs| - 1], p), cs[|cs| - 1], p)
  }

  function Cipher(key: nat, m: nat, cs: seq<nat>, p: nat): nat
    requires p > 0
  {
    (Rounds(key, m, cs, p) + key) % p
  }

  method Encrypt(key: nat, m0: nat, cs: seq<nat>, p: nat) returns (m: nat)
    requires p > 0
    ensures m == Cipher(key, m0, cs, p)
  {
    hide MulMod;
    m := m0;
    for i := 0 to |cs|
      invariant m == Rounds(key, m0, cs[..i], p)
    {
      var tmp := ((key + m) % p + cs[i]) % p;
      m := MulMod(tmp, tmp, p);
      m := MulMod(m, m, p);
      m := MulMod(m, m, p);
      m := MulMod(m, m, p);
      m := MulMod(m, tmp, p);
      AddTwice(key + m0, 0, p);
      assert cs[..i + 1][..i] == cs[..i];
      AddTwice(key + Rounds(key, m0, cs[..i], p), cs[i], p);
    }
    assert cs[..|cs|] == cs;
    m := (m + key) % p;
  }

  lemma AddTwice(a: nat, b: nat, p: nat)
    requires p > 0
    ensures (a % p + b) % p == (a + b) % p
  {
    ModCong(a, p);
    CongAdd(a % p, a, b, b, p);
  }

  // ----- its inverse -----

  /** Fermat's little theorem, taken as a hypothesis on the modulus. */
  ghost predicate Fermat(p: nat) {
    p > 1 && forall x: nat :: Cong(Pow(x, p), x, p)
  }

  /** e undoes 17 in the exponents modulo p - 1; it exists because 17 does not divide p - 1. */
  predicate Undoes(e: nat, k: nat, p: nat) {
    p > 1 && 17 * e == 1 + k * (p - 1)
  }

  function Unround(key: nat, y: nat, c: nat, e: nat, p: nat): nat
    requires p > 0
  {
    (Pow(y, e) - key - c) % p
  }

  /** The rounds undone, last constant first. */
  function Unrounds(key: nat, y: nat, cs: seq<nat>, e: nat, p: nat): nat
    requires p > 0
    decreases |cs|
  {
    if cs == [] then y else Unrounds(key, Unround(key, y, cs[|cs| - 1], e, p), cs[..|cs| - 1], e, p)
  }

  function Decipher(key: nat, y: nat, cs: seq<nat>, e: nat, p: nat): nat
    requires p > 0
  {
    Unrounds(key, (y - key) % p, cs, e, p)
  }

  lemma {:induction false} FermatPower(x: nat, k: nat, p: nat)
    requires Fermat(p)
    ensures Cong(Pow(x, 1 + k * (p - 1)), x, p)
  {
    hide Cong;
    if k == 0 {
      assert Pow(x, 1) == x * Pow(x, 0);
      CongRefl(x, p);
    } else {
      FermatPower(x, k - 1, p);
      var low := 1 + (k - 1) * (p - 1);
      assert 1 + k * (p - 1) == (p - 1) + low;
      PowAdd(x, p - 1, low);
      CongScale(Pow(x, p - 1), Pow(x, low), x, p);
      assert Pow(x, p) == x * Pow(x, p - 1);
      assert Cong(Pow(x, p), x, p);
      CongTrans(Pow(x, p - 1) * Pow(x, low), Pow(x, p - 1) * x, x, p);
    }
  }

  lemma SeventeenthIsPower(t: nat, p: nat)
    requires p > 0
    ensures Cong(Seventeenth(t, p), Pow(t, 17), p) && Seventeenth(t, p) < p
  {
    hide Cong, MulMod;
    var t2 := MulMod(t, t, p);
    var t4 := MulMod(t2, t2, p);
    var t8 := MulMod(t4, t4, p);
    assert Pow(t, 1) == t * Pow(t, 0);
    PowAdd(t, 1, 1);
    PowAdd(t, 2, 2);
    PowAdd(t, 4, 4);
    PowAdd(t, 8, 8);
    PowAdd(t, 16, 1);
    CongRefl(t, p);
    MulModCong(t, t, t, t, p);
    MulModCong(t2, Pow(t, 2), t2, Pow(t, 2), p);
    MulModCong(t4, Pow(t, 4), t4, Pow(t, 4), p);
    MulModCong(t8, Pow(t, 8), t8, Pow(t, 8), p);
    MulModCong(MulMod(t8, t8, p), Pow(t, 16), t, t, p);
  }

  /** Taking the e-th power and the 17th power undo each other, in either order. */
  lemma RootOfSeventeenth(t: nat, e: nat, k: nat, p: nat)
    requires Fermat(p) && Undoes(e, k, p)
    ensures Cong(Pow(Seventeenth(t, p), e), t, p)
    ensures Cong(Seventeenth(Pow(t, e) % p, p), t, p)
  {
    hide Cong, Seventeenth, Fermat;
    SeventeenthIsPower(t, p);
    PowCong(Seventeenth(t, p), Pow(t, 17), e, p);
    PowMul(t, 17, e);
    FermatPower(t, k, p);
    CongTrans(Pow(Seventeenth(t, p), e), Pow(t, 17 * e), t, p);
    SeventeenthIsPower(Pow(t, e) % p, p);
    ModCong(Pow(t, e), p);
    PowCong(Pow(t, e) % p, Pow(t, e), 17, p);
    PowMul(t, e, 17);
    CongTrans(Seventeenth(Pow(t, e) % p, p), Pow(Pow(t, e) % p, 17), Pow(t, 17 * e), p);
    CongTrans(Seventeenth(Pow(t, e) % p, p), Pow(t, 17 * e), t, p);
  }

  lemma UnroundOfRound(key: nat, m: nat, c: nat, e: nat, k: nat, p: nat)
    requires Fermat(p) && Undoes(e, k, p) && m < p
    ensures Unround(key, Round(key, m, c, p), c, e, p) == m
  {
    hide Cong, Seventeenth, Fermat, Pow;
    var t := (key + m + c) % p;
    RootOfSeventeenth(t, e, k, p);
    ModCong(key + m + c, p);
    CongTrans(Pow(Seventeenth(t, p), e), t, key + m + c, p);
    Shift(Pow(Seventeenth(t, p), e), key + m + c, key + c, m, p);
  }

  lemma Shift(a: int, b: int, d: int, m: nat, p: nat)
    requires p > 0 && Cong(a, b, p) && b - d == m < p
    ensures (a - d) % p == m
  {
    CongSub(a, b, d, d, p);
    ModUnique(m, p, 0, m);
  }

  lemma RoundOfUnround(key: nat, y: nat, c: nat, e: nat, k: nat, p: nat)
    requires Fermat(p) && Undoes(e, k, p) && y < p
    ensures Round(key, Unround(key, y, c, e, p), c, p) == y
  {
    hide Cong, Seventeenth, Fermat, Pow;
    var m := Unround(key, y, c, e, p);
    ModCong(Pow(y, e) - key - c, p);
    SumBack(m, Pow(y, e), key, c, p);
    RootOfSeventeenth(y, e, k, p);
    SeventeenthIsPower((key + m + c) % p, p);
    CanonicalCong(Seventeenth(Pow(y, e) % p, p), y, p);
  }

  lemma SumBack(m: int, a: int, key: int, c: int, p: nat)
    requires p > 0 && Cong(m, a - key - c, p)
    ensures (key + m + c) % p == a % p
  {
    CongAdd(m, a - key - c, key + c, key + c, p);
  }

  lemma RoundsBelow(key: nat, m: nat, cs: seq<nat>, p: nat)
    requires p > 0 && m < p
    ensures Rounds(key, m, cs, p) < p
  {
  }

  lemma UnroundBelow(key: nat, y: nat, c: nat, e: nat, p: nat)
    requires p > 0
    ensures Unround(key, y, c, e, p) < p
  {
  }

  lemma {:induction false} UnroundsOfRounds(key: nat, m: nat, cs: seq<nat>, e: nat, k: nat, p: nat)
    requires Fermat(p) && Undoes(e, k, p) && m < p
    ensures Unrounds(key, Rounds(key, m, cs, p), cs, e, p) == m
    decreases |cs|
  {
    hide Fermat, Undoes, Round, Unround;
    if cs != [] {
      var front, c := cs[..|cs| - 1], cs[|cs| - 1];
      assert p > 0 by { FermatPositive(p); }
      RoundsBelow(key, m, front, p);
      UnroundOfRound(key, Rounds(key, m, front, p), c, e, k, p);
      UnroundsOfRounds(key, m, front, e, k, p);
    }
  }

  lemma FermatPositive(p: nat)
    requires Fermat(p)
    ensures p > 1
  {
  }

  lemma {:induction false} RoundsOfUnrounds(key: nat, y: nat, cs: seq<nat>, e: nat, k: nat, p: nat)
    requires Fermat(p) && Undoes(e, k, p) && y < p
    ensures Rounds(key, Unrounds(key, y, cs, e, p), cs, p) == y
    decreases |cs|
  {
    hide Fermat, Undoes, Round, Unround;
    if cs != [] {
      var front, c := cs[..|cs| - 1], cs[|cs| - 1];
      assert p > 0 by { FermatPositive(p); }
      var y' := Unround(key, y, c, e, p);
      UnroundBelow(key, y, c, e, p);
      RoundsOfUnrounds(key, y', front, e, k, p);
      RoundOfUnround(key, y, c, e, k, p);
    }
  }

  lemma DecipherOfCipher(key: nat, m: nat, cs: seq<nat>, e: nat, k: nat, p: nat)
    requires Fermat(p) && Undoes(e, k, p) && m < p
    ensures Decipher(key, Cipher(key, m, cs, p), cs, e, p) == m
  {
    hide Fermat, Undoes, Rounds, Unrounds;
    FermatPositive(p);
    RoundsBelow(key, m, cs, p);
    AddSubMod(Rounds(key, m, cs, p), key, p);
    UnroundsOfRounds(key, m, cs, e, k, p);
  }

  lemma CipherOfDecipher(key: nat, y: nat, cs: seq<nat>, e: nat, k: nat, p: nat)
    requires Fermat(p) && Undoes(e, k, p) && y < p
    ensures Cipher(key, Decipher(key, y, cs, e, p), cs, p) == y
  {
    hide Fermat, Undoes, Rounds, Unrounds;
    FermatPositive(p);
    var z := (y - key) % p;
    AddSubMod(y, key, p);
    RoundsOfUnrounds(key, z, cs, e, k, p);
  }

  /** For every key the cipher is a permutation of the field, with this inverse. */
  lemma CipherIsPermutation(key: nat, m: nat, cs: seq<nat>, e: nat, k: nat, p: nat)
    requires Fermat(p) && Undoes(e, k, p) && m < p
    ensures Decipher(key, Cipher(key, m, cs, p), cs, e, p) == m
    ensures Cipher(key, Decipher(key, m, cs, e, p), cs, p) == m
  {
    hide Fermat, Undoes, Cipher, Decipher;
    DecipherOfCipher(key, m, cs, e, k, p);
    CipherOfDecipher(key, m, cs, e, k, p);
  }

  lemma AddSubMod(y: nat, key: nat, p: nat)
    requires p > 0 && y < p
    ensures ((y + key) % p - key) % p == y && ((y - key) % p + key) % p == y
  {
    ModCong(y + key, p);
    Shift((y + key) % p, y + key, key, y, p);
    ModCong(y - key, p);
    CongAdd((y - key) % p, y - key, key, key, p);
    ModUnique(y, p, 0, y);
  }

  /** The inverse exponent for the modulus of the MiMC field. */
  const ROOT_EXPONENT: nat :=
    3973864352672174317293564677073668955941599687131324154322462802784663171313

  lemma RootExponentUndoes()
    ensures Undoes(ROOT_EXPONENT, 8, MODULUS)
  {
  }

  // ----- the sponge -----

  /** `ByteOrder::element`: the block read big-endian and reduced. */
  function Element(block: Bytes, p: nat): nat
    requires p > 0
  {
    FromBe(block) % p
  }

  function Blocks(data: Bytes, p: nat): seq<nat>
    requires p > 0 && |data| % 32 == 0
    decreases |data|, p
  {
    if data == [] then [] else [Element(data[..32], p)] + Blocks(data[32..], p)
  }

  function Padded(data: Bytes): Bytes {
    if 0 < |data| < 32 then Zeros(32 - |data|) + data else data
  }

  datatype WriteOutcome = Written(n: nat) | InvalidLength | SliceOutOfRange

  function Chain(key: nat, data: seq<nat>, cs: seq<nat>, p: nat): nat
    requires p > 0
  {
    if data == [] then key
    else
      var prev := Chain(key, data[..|data| - 1], cs, p);
      var last := data[|data| - 1];
      ((prev + Cipher(prev, last, cs, p)) % p + last) % p
  }

  /** Each step adds the cipher's answer and the block to what was there: with the cipher's inverse, two
      digests in a row give the block between them. */
  lemma ChainGivesBlock(key: nat, front: seq<nat>, last: nat, cs: seq<nat>, e: nat, k: nat, p: nat)
    requires Fermat(p) && Undoes(e, k, p) && last < p && key < p
    ensures Chain(key, [], cs, p) == key
    ensures
      var prev := Chain(key, front, cs, p);
      Decipher(prev, (Chain(key, front + [last], cs, p) - prev - last) % p, cs, e, p) == last
  {
    FermatPositive(p);
    hide Fermat, Undoes, Decipher, Cipher;
    var prev, all := Chain(key, front, cs, p), front + [last];
    assert all[..|all| - 1] == front;
    var c := Cipher(prev, last, cs, p);
    CipherIsPermutation(prev, last, cs, e, k, p);
    CipherBelow(prev, last, cs, p);
    TakeAway(prev, c, last, p);
  }

  lemma CipherBelow(key: nat, m: nat, cs: seq<nat>, p: nat)
    requires p > 0
    ensures Cipher(key, m, cs, p) < p
  {
  }

  lemma TakeAway(a: nat, c: nat, b: nat, p: nat)
    requires p > 0 && c < p
    ensures (((a + c) % p + b) % p - a - b) % p == c
  {
    hide Cong;
    ModCong(a + c, p);
    CongRefl(b, p);
    CongAdd((a + c) % p, a + c, b, b, p);
    ModCong((a + c) % p + b, p);
    CongTrans(((a + c) % p + b) % p, (a + c) % p + b, a + c + b, p);
    Shift(((a + c) % p + b) % p, a + c + b, a + b, c, p);
  }

  class Absorber {
    var data: seq<nat>
    const cs: seq<nat>
    const p: nat

    constructor (cs: seq<nat>, p: nat)
      ensures data == [] && this.cs == cs && this.p == p
    {
      this.data, this.cs, this.p := [], cs, p;
    }

    /** Appends the blocks. The empty input is refused, after the loop; a ragged tail past the first
        block panics inside it. A short input is padded on the left first. */
    method Write(input: Bytes) returns (r: WriteOutcome)
      requires p > 0
      modifies this
      ensures r.Written? <==> Hashable(input)
      ensures r.InvalidLength? <==> input == []
      ensures r.Written? ==> r.n == |Padded(input)| && data == old(data) + Blocks(Padded(input), p)
      ensures r.InvalidLength? ==> data == old(data)
    {
      hide Padded, Hashable, Blocks, Element;
      var b := Padded(input);
      var start, i := 0, 0;
      ghost var before := data;
      PaddedHashable(input);
      NoBlocks(b, p);
      while i < |b|
        invariant i % 32 == 0 && start == (if i == 0 then 0 else i - 32)
        invariant i <= |b| && data == before + Blocks(b[..i], p)
      {
        start := i;
        if start + 32 > |b| {
          RaggedTail(|b|, i);
          return SliceOutOfRange;
        }
        data := data + [Element(b[start..start + 32], p)];
        BlocksSnoc(b, i, p);
        i := i + 32;
      }
      assert b[..i] == b;
      start := start + 32;
      if start != |b| {
        return InvalidLength;
      }
      return Written(|b|);
    }

    method Checksum() returns (hash: nat)
      requires p > 0
      ensures hash == Chain(0, data, cs, p)
    {
      hash := 0;
      for i := 0 to |data|
        invariant hash == Chain(0, data[..i], cs, p)
      {
        var r := Encrypt(hash, data[i], cs, p);
        assert data[..i + 1][..i] == data[..i];
        hash := (hash + r) % p;
        hash := (hash + data[i]) % p;
      }
      assert data[..|data|] == data;
    }
  }

  lemma PaddedHashable(input: Bytes)
    ensures Hashable(input) <==> input != [] && |Padded(input)| % 32 == 0
    ensures Padded(input) == [] <==> input == []
  {
  }

  lemma NoBlocks(b: Bytes, p: nat)
    requires p > 0
    ensures b[..0] == [] && Blocks(b[..0], p) == []
  {
  }

  lemma RaggedTail(n: nat, i: nat)
    requires i % 32 == 0 && i < n < i + 32
    ensures n % 32 != 0
  {
    ModUnique(n, 32, i / 32, n - i);
  }

  lemma BlocksSnoc(b: Bytes, i: nat, p: nat)
    requires p > 0 && i + 32 <= |b| && i % 32 == 0
    ensures Blocks(b[..i + 32], p) == Blocks(b[..i], p) + [Element(b[i..i + 32], p)]
  {
    var last := b[i..i + 32];
    assert b[..i + 32] == b[..i] + last;
    BlocksAppend(b[..i], last, p);
    assert last[..32] == last && last[32..] == [];
  }

  /** Writing in pieces of whole blocks is writing once. */
  lemma {:induction false} BlocksAppend(a: Bytes, b: Bytes, p: nat)
    requires p > 0 && |a| % 32 == 0 && |b| % 32 == 0
    ensures Blocks(a + b, p) == Blocks(a, p) + Blocks(b, p)
    decreases |a|
  {
    if a == [] {
      assert a + b == b;
    } else {
      assert (a + b)[..32] == a[..32] && (a + b)[32..] == a[32..] + b;
      BlocksAppend(a[32..], b, p);
    }
  }

  /** `mimc::sum` */
  function SumOf(msg: Bytes, cs: seq<nat>, p: nat): Result<nat, Error>
    requires p > 0
  {
    if Hashable(msg) then Success(Chain(0, Blocks(Padded(msg), p), cs, p)) else Failure(HashError(msg))
  }

  method Sum(msg: Bytes, cs: seq<nat>, p: nat) returns (r: Result<nat, Error>)
    requires p > 0
    ensures r == SumOf(msg, cs, p)
  {
    var digest := new Absorber(cs, p);
    var w := digest.Write(msg);
    if w.InvalidLength? {
      return Failure(HashFail);
    }
    if w.SliceOutOfRange? {
      return Failure(Panic);
    }
    var h := digest.Checksum();
    assert [] + Blocks(Padded(msg), p) == Blocks(Padded(msg), p);
    return Success(h);
  }

  /** The padding goes on the left: a short message sums like the whole block of the same number. */
  lemma ShortIsBlock(msg: Bytes, cs: seq<nat>, p: nat)
    requires p > 0 && 0 < |msg| < 32
    ensures FromBe(msg) < TWO_TO_256 && SumOf(msg, cs, p) == SumOf(Be32(FromBe(msg)), cs, p)
  {
    PaddedIsNumber(msg);
    hide FromBe, Be32, Chain, Blocks;
    assert Padded(Be32(FromBe(msg))) == Be32(FromBe(msg));
  }

  lemma PaddedIsNumber(msg: Bytes)
    requires 0 < |msg| < 32
    ensures FromBe(msg) < TWO_TO_256 && Padded(msg) == Be32(FromBe(msg))
  {
    hide FromBe, Be32, Zeros, Pow256;
    var zeros := Zeros(32 - |msg|);
    ZerosLength(32 - |msg|);
    FromBeZeros(32 - |msg|);
    FromBeConcat(zeros, msg);
    assert 0 * Pow256(|msg|) == 0;
    FromBe32(zeros + msg);
  }

  lemma ChainBelow(key: nat, data: seq<nat>, cs: seq<nat>, p: nat)
    requires p > 0 && key < p
    ensures Chain(key, data, cs, p) < p
  {
  }

  /** MiMC is one of the hash functions the trie is proved for. */
  function TrieMimc(cs: seq<nat>): Hash {
    msg =>
      if Hashable(msg) then
        ChainBelow(0, Blocks(Padded(msg), MODULUS), cs, MODULUS);
        Chain(0, Blocks(Padded(msg), MODULUS), cs, MODULUS)
      else 0
  }

  /** Where `sum` succeeds it is this function of the message, and it fails as the trie expects. */
  lemma SumIsTrieHash(cs: seq<nat>, msg: Bytes)
    ensures SumOf(msg, cs, MODULUS) ==
      match TrieHash(TrieMimc(cs), msg) case Success(d) => Success(d as nat) case Failure(e) => Failure(e)
  {
  }

  /** No input is an error; a ragged one panics. */
  lemma SumFails(msg: Bytes, cs: seq<nat>, p: nat)
    requires p > 0
    ensures SumOf([], cs, p) == Failure(HashFail)
    ensures |msg| > 32 && |msg| % 32 != 0 ==> SumOf(msg, cs, p) == Failure(Panic)
  {
  }

  // ----- which messages share a sum whatever the cipher -----

  /** A non-canonical block cannot be told from the canonical block it reduces to, wherever it is. */
  lemma NonCanonicalCollides(front: Bytes, block: Bytes, block': Bytes, back: Bytes, cs: seq<nat>, p: nat)
    requires p > 0 && |front| % 32 == 0 && |back| % 32 == 0 && |block| == |block'| == 32
    requires FromBe(block') == FromBe(block) + p
    ensures block != block'
    ensures SumOf(front + block + back, cs, p) == SumOf(front + block' + back, cs, p)
  {
    hide Chain, Blocks;
    ModShift(FromBe(block), 1, p);
    AroundBlock(front, block, back, p);
    AroundBlock(front, block', back, p);
  }

  lemma AroundBlock(front: Bytes, block: Bytes, back: Bytes, p: nat)
    requires p > 0 && |front| % 32 == 0 && |back| % 32 == 0 && |block| == 32
    ensures Blocks(front + block + back, p) == Blocks(front, p) + [FromBe(block) % p] + Blocks(back, p)
  {
    hide FromBe, Blocks;
    OneBlock(block, p);
    BlocksAppend(front, block, p);
    WholeBlocks(|front|, 32);
    BlocksAppend(front + block, back, p);
  }

  lemma WholeBlocks(a: nat, b: nat)
    requires a % 32 == 0 && b % 32 == 0
    ensures (a + b) % 32 == 0
  {
  }

  lemma OneBlock(block: Bytes, p: nat)
    requires p > 0 && |block| == 32
    ensures Blocks(block, p) == [FromBe(block) % p]
  {
    hide FromBe;
    assert block[..32] == block && block[32..] == [];
  }

  predicate CanonicalBlocks(data: Bytes, p: nat)
    requires p > 0 && |data| % 32 == 0
    decreases |data|, p
  {
    data == [] || (FromBe(data[..32]) < p && CanonicalBlocks(data[32..], p))
  }

  lemma CanonicalElement(a: Bytes, b: Bytes, p: nat)
    requires p > 0 && |a| == |b| && FromBe(a) < p && FromBe(b) < p && Element(a, p) == Element(b, p)
    ensures a == b
  {
    hide FromBe;
    ModUnique(FromBe(a), p, 0, FromBe(a));
    ModUnique(FromBe(b), p, 0, FromBe(b));
    BeOfFromBe(a);
    BeOfFromBe(b);
  }

  /** On canonical blocks, reading a message into field elements is one-to-one. */
  lemma {:induction false} CanonicalBlocksInjective(a: Bytes, b: Bytes, p: nat)
    requires p > 0 && |a| % 32 == 0 && |b| % 32 == 0 && CanonicalBlocks(a, p) && CanonicalBlocks(b, p)
    requires Blocks(a, p) == Blocks(b, p)
    ensures a == b
    decreases |a|
  {
    hide FromBe, Element;
    if a != [] {
      assert b != [];
      assert Blocks(a, p)[0] == Blocks(b, p)[0] && Blocks(a, p)[1..] == Blocks(b, p)[1..];
      CanonicalElement(a[..32], b[..32], p);
      CanonicalBlocksInjective(a[32..], b[32..], p);
      assert a == a[..32] + a[32..] && b == b[..32] + b[32..];
    }
  }
}
