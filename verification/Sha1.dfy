/** SHA-1 over EVM memory: padding block by block, the lane-parallel message schedule, and eighty rounds on
    the packed state, against sections 5.1.1, 5.3.1 and 6.1.2 of FIPS 180-4. */
module Sha1 {
  import opened Words
  import opened ByteCopy
  import opened Sha1Words

  // ----- the standard -----

  function Word4(b: Bytes): W32
    requires |b| == 4
  {
    var n := FromBe(b);
    assert Pow256(4) == 0x1_0000_0000;
    n as bv32
  }

  /** A 64-byte block as sixteen big-endian words. */
  function BlockWords(b: Bytes): (w: seq<W32>)
    requires |b| == 64
    ensures |w| == 16
  {
    seq(16, t requires 0 <= t < 16 => Word4(b[4 * t..4 * t + 4]))
  }

  /** The message schedule W_t. */
  function W(block: seq<W32>, t: nat): W32
    requires |block| == 16
    decreases t, block
  {
    if t < 16 then block[t]
    else Rotl1(Xor4(W(block, t - 3), W(block, t - 8), W(block, t - 14), W(block, t - 16)))
  }

  function Xor4(a: W32, b: W32, c: W32, d: W32): W32 {
    Xor32(Xor32(a, b), Xor32(c, d))
  }

  /** The working variables after t rounds. */
  function AfterRounds(s: State, block: seq<W32>, t: nat): State
    requires |block| == 16
    decreases t, block
  {
    if t == 0 then s
    else
      var prev := AfterRounds(s, block, t - 1);
      Step(prev, Ft(t - 1, prev), Kt(t - 1), W(block, t - 1))
  }

  const INITIAL: State := State(0x67452301, 0xEFCDAB89, 0x98BADCFE, 0x10325476, 0xC3D2E1F0)

  /** Byte i of the initial hash value, each of its words taken from the low end: the digits 0 to F counted
      up, counted down, and four times one of each. */
  function InitialByte(i: nat): nat
    requires i < 20
  {
    if i < 8 then 34 * i + 1 else if i < 16 then 254 - 34 * (i - 8) else 240 - 15 * (i - 16)
  }

  function InitialWord(i: nat): nat
    requires i < 5
  {
    InitialByte(4 * i) + 256 * (InitialByte(4 * i + 1) + 256 * (InitialByte(4 * i + 2) + 256 * InitialByte(4 * i + 3)))
  }

  lemma InitialPattern()
    ensures INITIAL.a as int == InitialWord(0) && INITIAL.b as int == InitialWord(1)
    ensures INITIAL.c as int == InitialWord(2) && INITIAL.d as int == InitialWord(3)
    ensures INITIAL.e as int == InitialWord(4)
  {
  }

  /** The hash value after n blocks. */
  function AfterBlocks(message: Bytes, n: nat): State
    requires 64 * n <= |message|
    decreases n, message
  {
    if n == 0 then INITIAL
    else
      var prev := AfterBlocks(message, n - 1);
      PlusState(prev, AfterRounds(prev, BlockWords(message[64 * (n - 1)..64 * n]), 80))
  }

  function ZeroCount(len: nat): nat {
    (119 - len % 64) % 64
  }

  /** A 1 bit, zeros, and the length in bits in 8 bytes. */
  function Padded(data: Bytes): Bytes {
    data + [0x80] + Zeros(ZeroCount(|data|)) + Be(8 * |data|, 8)
  }

  /** Read as one number the padded message is the data with a 1 bit, fewer than 512 zero bits, and the
      length in bits. */
  lemma PaddedAsNumber(data: Bytes)
    requires 8 * |data| < TWO_TO_64
    ensures FromBe(Padded(data)) == FromBe(data + [0x80]) * Pow256(ZeroCount(|data|) + 8) + 8 * |data|
    ensures ZeroCount(|data|) < 64
  {
    ZeroCountSmall(|data|);
    hide FromBe, Be, Pow256, ZeroCount, Zeros;
    NumberOf(data + [0x80], ZeroCount(|data|), 8 * |data|);
  }

  lemma ZeroCountSmall(len: nat)
    ensures ZeroCount(len) < 64
  {
  }

  lemma NumberOf(front: Bytes, z: nat, v: nat)
    requires v < TWO_TO_64
    ensures FromBe(front + Zeros(z) + Be(v, 8)) == FromBe(front) * Pow256(z + 8) + v
  {
    hide FromBe, Be, Zeros, Pow256;
    ZerosLength(z);
    FromBeZeros(z);
    FromBeConcat(front, Zeros(z));
    FromBeConcat(front + Zeros(z), Be(v, 8));
    FromBeOfBe(v, 8);
    Pow256Of32();
    ModUnique(v, TWO_TO_64, 0, v);
    Pow256Add(z, 8);
    MulAssoc3(FromBe(front), Pow256(z), Pow256(8));
  }

  lemma MulAssoc3(a: int, b: int, c: int)
    ensures (a * b) * c == a * (b * c)
  {
  }

  /** The terminator byte is a 1 bit and seven of the zeros. */
  lemma Terminator(data: Bytes)
    ensures FromBe(data + [0x80]) == (2 * FromBe(data) + 1) * 128
  {
    assert (data + [0x80])[..|data|] == data;
  }

  /** Words written one after the other, each big-endian. */
  function WordBytes(ws: seq<W32>): (b: Bytes)
    ensures |b| == 4 * |ws|
  {
    if ws == [] then [] else WordBytes(ws[..|ws| - 1]) + Be(ws[|ws| - 1] as int, 4)
  }

  /** Reading a block gives back the sixteen words written. */
  lemma BlockWordsOf(ws: seq<W32>)
    requires |ws| == 16
    ensures BlockWords(WordBytes(ws)) == ws
  {
    hide Word4, WordBytes;
    forall t | 0 <= t < 16
      ensures BlockWords(WordBytes(ws))[t] == ws[t]
    {
      WordBytesAt(ws, t);
      Word4OfBe(ws[t]);
    }
  }

  lemma {:induction false} WordBytesAt(ws: seq<W32>, t: nat)
    requires t < |ws|
    ensures WordBytes(ws)[4 * t..4 * t + 4] == Be(ws[t] as int, 4)
    decreases |ws|
  {
    hide Be;
    var front := ws[..|ws| - 1];
    if t < |front| {
      WordBytesAt(front, t);
      assert WordBytes(ws)[4 * t..4 * t + 4] == WordBytes(front)[4 * t..4 * t + 4];
    }
  }

  lemma Word4OfBe(w: W32)
    ensures Word4(Be(w as int, 4)) == w
  {
    hide Be, FromBe;
    FromBeOfBe(w as int, 4);
    assert Pow256(4) == 0x1_0000_0000;
    ModUnique(w as int, 0x1_0000_0000, 0, w as int);
  }

  function Sha1Of(data: Bytes): State {
    PaddedIsBlocks(data);
    AfterBlocks(Padded(data), |Padded(data)| / 64)
  }

  lemma PaddedIsBlocks(data: Bytes)
    ensures |Padded(data)| % 64 == 0
  {
    hide Be, Zeros;
    ZerosLength(ZeroCount(|data|));
    var len := |data|;
    assert |Padded(data)| == len + 9 + ZeroCount(len);
    assert len == len / 64 * 64 + len % 64;
  }

  // ----- the schedule recurrence used from word 32 on -----

  lemma Rotl1OfXor(a: W32, b: W32)
    ensures Rotl1(Xor32(a, b)) == Xor32(Rotl1(a), Rotl1(b))
  {
  }

  lemma Rotl1OfXor4(a: W32, b: W32, c: W32, d: W32)
    ensures Rotl1(Xor4(a, b, c, d)) == Xor4(Rotl1(a), Rotl1(b), Rotl1(c), Rotl1(d))
  {
    hide Rotl1, Xor32;
    Rotl1OfXor(a, b);
    Rotl1OfXor(c, d);
    Rotl1OfXor(Xor32(a, b), Xor32(c, d));
  }

  lemma Rotl1Twice(x: W32)
    ensures Rotl1(Rotl1(x)) == Rotl2(x)
  {
  }

  lemma PairsCancel(x6: W32, x11: W32, x16: W32, x17: W32, x19: W32, x22: W32, x24: W32, x28: W32, x30: W32, x32: W32)
    ensures
      Xor4(Xor4(x6, x11, x17, x19), Xor4(x11, x16, x22, x24), Xor4(x17, x22, x28, x30), Xor4(x19, x24, x30, x32))
      == Xor4(x6, x16, x28, x32)
  {
    hide Xor32;
    var p := Xor32(Xor32(x17, x22), Xor32(x19, x24));
    Interchange(Xor32(x6, x11), Xor32(x17, x19), Xor32(x11, x16), Xor32(x22, x24));
    MiddleCancels(x6, x11, x16);
    Interchange(x17, x19, x22, x24);
    Interchange(Xor32(x17, x22), Xor32(x28, x30), Xor32(x19, x24), Xor32(x30, x32));
    MiddleCancels(x28, x30, x32);
    MiddleCancels(Xor32(x6, x16), p, Xor32(x28, x32));
  }

  lemma InterchangeTerms(a: W32, b: W32, c: W32, d: W32)
    ensures Xor32(a ^ b, c ^ d) == Xor32(a ^ c, b ^ d)
  {
  }

  lemma Interchange(a: W32, b: W32, c: W32, d: W32)
    ensures Xor32(Xor32(a, b), Xor32(c, d)) == Xor32(Xor32(a, c), Xor32(b, d))
  {
    hide Xor32;
    Xor32Def(a, b);
    Xor32Def(c, d);
    Xor32Def(a, c);
    Xor32Def(b, d);
    InterchangeTerms(a, b, c, d);
  }

  lemma MiddleCancels(a: W32, b: W32, c: W32)
    ensures Xor32(Xor32(a, b), Xor32(b, c)) == Xor32(a, c)
  {
  }

  /** The intermediate terms cancel in pairs. */
  lemma TermsCancel(x6: W32, x11: W32, x16: W32, x17: W32, x19: W32, x22: W32, x24: W32, x28: W32, x30: W32, x32: W32)
    ensures
      Rotl1(Xor4(
        Rotl1(Xor4(x6, x11, x17, x19)), Rotl1(Xor4(x11, x16, x22, x24)),
        Rotl1(Xor4(x17, x22, x28, x30)), Rotl1(Xor4(x19, x24, x30, x32))))
      == Rotl2(Xor4(x6, x16, x28, x32))
  {
    hide Rotl1, Rotl2, Xor4;
    var a, b := Xor4(x6, x11, x17, x19), Xor4(x11, x16, x22, x24);
    var c, d := Xor4(x17, x22, x28, x30), Xor4(x19, x24, x30, x32);
    Rotl1OfXor4(a, b, c, d);
    PairsCancel(x6, x11, x16, x17, x19, x22, x24, x28, x30, x32);
    Rotl1Twice(Xor4(x6, x16, x28, x32));
  }

  lemma DerivedRecurrence(block: seq<W32>, t: nat)
    requires |block| == 16 && t >= 32
    ensures W(block, t) == Rotl2(Xor4(W(block, t - 6), W(block, t - 16), W(block, t - 28), W(block, t - 32)))
  {
    hide Rotl1, Rotl2, Xor4;
    TermsCancel(W(block, t - 6), W(block, t - 11), W(block, t - 16), W(block, t - 17), W(block, t - 19),
      W(block, t - 22), W(block, t - 24), W(block, t - 28), W(block, t - 30), W(block, t - 32));
  }

  // ----- scratch memory, in 32-bit cells -----

  function OctetAt(c: seq<W32>, t: nat): Octet
    requires t + 8 <= |c|
  {
    Octet(c[t], c[t + 1], c[t + 2], c[t + 3], c[t + 4], c[t + 5], c[t + 6], c[t + 7])
  }

  function LoadCells(c: seq<W32>, t: nat): bv256
    requires t + 8 <= |c|
  {
    Join(OctetAt(c, t))
  }

  method StoreCells(c: array<W32>, t: nat, x: bv256)
    requires t + 8 <= c.Length
    modifies c
    ensures OctetAt(c[..], t) == Split(x)
    ensures c[..t] == old(c[..t]) && c[t + 8..] == old(c[t + 8..])
  {
    hide Split;
    var o := Split(x);
    c[t], c[t + 1], c[t + 2], c[t + 3] := o.a, o.b, o.c, o.d;
    c[t + 4], c[t + 5], c[t + 6], c[t + 7] := o.e, o.f, o.g, o.h;
  }

  ghost predicate Filled(c: seq<W32>, block: seq<W32>, t: nat)
    requires |block| == 16
  {
    t <= |c| && forall u :: 0 <= u < t ==> c[u] == W(block, u)
  }

  function Xor4Each(a: Octet, b: Octet, c: Octet, d: Octet): Octet {
    XorEach(XorEach(a, b), XorEach(c, d))
  }

  /** Four loads xored and every lane rotated by one. */
  function Mix1(c: seq<W32>, t: nat): bv256
    requires 16 <= t && t + 5 <= |c|
  {
    RotateLanes1(Xor(Xor(LoadCells(c, t - 3), LoadCells(c, t - 8)), Xor(LoadCells(c, t - 14), LoadCells(c, t - 16))))
  }

  function Mix2(c: seq<W32>, t: nat): bv256
    requires 32 <= t && t + 2 <= |c|
  {
    RotateLanes2(Xor(Xor(LoadCells(c, t - 6), LoadCells(c, t - 16)), Xor(LoadCells(c, t - 28), LoadCells(c, t - 32))))
  }

  lemma Mix1Lanes(c: seq<W32>, t: nat)
    requires 16 <= t && t + 5 <= |c|
    ensures Split(Mix1(c, t)) ==
      Each(Xor4Each(OctetAt(c, t - 3), OctetAt(c, t - 8), OctetAt(c, t - 14), OctetAt(c, t - 16)), Rotl1)
  {
    hide Split, Join, Xor, RotateLanes1, XorEach, Each, OctetAt;
    var a, b, x, d := OctetAt(c, t - 3), OctetAt(c, t - 8), OctetAt(c, t - 14), OctetAt(c, t - 16);
    XorOfJoin(a, b);
    XorOfJoin(x, d);
    XorOfJoin(XorEach(a, b), XorEach(x, d));
    Rotate1OfJoin(Xor4Each(a, b, x, d));
    SplitOfJoin(Each(Xor4Each(a, b, x, d), Rotl1));
  }

  lemma Mix2Lanes(c: seq<W32>, t: nat)
    requires 32 <= t && t + 2 <= |c|
    ensures Split(Mix2(c, t)) ==
      Each(Xor4Each(OctetAt(c, t - 6), OctetAt(c, t - 16), OctetAt(c, t - 28), OctetAt(c, t - 32)), Rotl2)
  {
    hide Split, Join, Xor, RotateLanes2, XorEach, Each, OctetAt;
    var a, b, x, d := OctetAt(c, t - 6), OctetAt(c, t - 16), OctetAt(c, t - 28), OctetAt(c, t - 32);
    XorOfJoin(a, b);
    XorOfJoin(x, d);
    XorOfJoin(XorEach(a, b), XorEach(x, d));
    Rotate2OfJoin(Xor4Each(a, b, x, d));
    SplitOfJoin(Each(Xor4Each(a, b, x, d), Rotl2));
  }

  lemma Next1(c: seq<W32>, block: seq<W32>, t: nat, u: nat)
    requires |block| == 16 && Filled(c, block, t) && 16 <= u < t + 3
    ensures Rotl1(Xor4(c[u - 3], c[u - 8], c[u - 14], c[u - 16])) == W(block, u)
  {
    hide Rotl1, Xor4;
  }

  lemma Next2(c: seq<W32>, block: seq<W32>, t: nat, u: nat)
    requires |block| == 16 && Filled(c, block, t) && 32 <= u < t + 6
    ensures Rotl2(Xor4(c[u - 6], c[u - 16], c[u - 28], c[u - 32])) == W(block, u)
  {
    hide Rotl2, Xor4, W;
    DerivedRecurrence(block, u);
  }

  /** The first three lanes only depend on words already there. */
  lemma Mix1Extends(c: seq<W32>, block: seq<W32>, t: nat)
    requires |block| == 16 && 16 <= t && t + 5 <= |c| && Filled(c, block, t)
    ensures
      var o := Split(Mix1(c, t));
      o.a == W(block, t) && o.b == W(block, t + 1) && o.c == W(block, t + 2)
  {
    hide Split, Mix1, Xor32, Rotl1, W, Filled;
    Mix1Lanes(c, t);
    Next1(c, block, t, t);
    Next1(c, block, t, t + 1);
    Next1(c, block, t, t + 2);
  }

  lemma Mix2First(c: seq<W32>, block: seq<W32>, t: nat)
    requires |block| == 16 && 32 <= t && t + 2 <= |c| && Filled(c, block, t)
    ensures
      var o := Split(Mix2(c, t));
      o.a == W(block, t) && o.b == W(block, t + 1) && o.c == W(block, t + 2)
  {
    hide Split, Mix2, Xor32, Rotl2, W, Filled;
    Mix2Lanes(c, t);
    Next2(c, block, t, t);
    Next2(c, block, t, t + 1);
    Next2(c, block, t, t + 2);
  }

  lemma Mix2Second(c: seq<W32>, block: seq<W32>, t: nat)
    requires |block| == 16 && 32 <= t && t + 2 <= |c| && Filled(c, block, t)
    ensures
      var o := Split(Mix2(c, t));
      o.d == W(block, t + 3) && o.e == W(block, t + 4) && o.f == W(block, t + 5)
  {
    hide Split, Mix2, Xor32, Rotl2, W, Filled;
    Mix2Lanes(c, t);
    Next2(c, block, t, t + 3);
    Next2(c, block, t, t + 4);
    Next2(c, block, t, t + 5);
  }

  /** With the derived recurrence, six lanes do. */
  lemma Mix2Extends(c: seq<W32>, block: seq<W32>, t: nat)
    requires |block| == 16 && 32 <= t && t + 2 <= |c| && Filled(c, block, t)
    ensures
      var o := Split(Mix2(c, t));
      && o.a == W(block, t) && o.b == W(block, t + 1) && o.c == W(block, t + 2)
      && o.d == W(block, t + 3) && o.e == W(block, t + 4) && o.f == W(block, t + 5)
  {
    hide Split, Mix2, W, Filled;
    Mix2First(c, block, t);
    Mix2Second(c, block, t);
  }

  lemma FilledMore(c: seq<W32>, c': seq<W32>, block: seq<W32>, t: nat, n: nat)
    requires |block| == 16 && Filled(c, block, t) && |c'| == |c| && t + n <= |c| && c'[..t] == c[..t]
    requires forall u :: t <= u < t + n ==> c'[u] == W(block, u)
    ensures Filled(c', block, t + n)
  {
    hide W;
    forall u | 0 <= u < t + n ensures c'[u] == W(block, u) {
      if u < t {
        assert c'[u] == c'[..t][u] == c[..t][u];
      }
    }
  }

  method ExpandThree(c: array<W32>, t: nat, ghost block: seq<W32>)
    requires |block| == 16 && 16 <= t && t + 8 <= c.Length && Filled(c[..], block, t)
    modifies c
    ensures Filled(c[..], block, t + 3)
  {
    hide W, Mix1, Split, Filled;
    ghost var before := c[..];
    Mix1Extends(c[..], block, t);
    StoreCells(c, t, Mix1(c[..], t));
    FilledMore(before, c[..], block, t, 3);
  }

  method ExpandSix(c: array<W32>, t: nat, ghost block: seq<W32>)
    requires |block| == 16 && 32 <= t && t + 8 <= c.Length && Filled(c[..], block, t)
    modifies c
    ensures Filled(c[..], block, t + 6)
  {
    hide W, Mix2, Split, Filled;
    ghost var before := c[..];
    Mix2Extends(c[..], block, t);
    StoreCells(c, t, Mix2(c[..], t));
    FilledMore(before, c[..], block, t, 6);
  }

  /** Three words a turn up to word 33, then six a turn from word 32 on: W_0 to W_79, whatever the scratch
      memory held past the block. */
  method Expand(c: array<W32>, ghost block: seq<W32>)
    requires c.Length >= 88 && |block| == 16 && c[..16] == block
    modifies c
    ensures Filled(c[..], block, 80)
  {
    hide W;
    FirstSixteen(c[..], block);
    var t := 16;
    while t < 32
      invariant 16 <= t <= 34 && (t - 16) % 3 == 0
      invariant Filled(c[..], block, t)
    {
      ExpandThree(c, t, block);
      t := t + 3;
    }
    t := 32;
    while t < 80
      invariant 32 <= t <= 80 && (t - 32) % 6 == 0
      invariant Filled(c[..], block, t)
    {
      ExpandSix(c, t, block);
      t := t + 6;
    }
  }

  lemma FirstSixteen(c: seq<W32>, block: seq<W32>)
    requires |block| == 16 && |c| >= 16 && c[..16] == block
    ensures Filled(c, block, 16)
  {
    forall u | 0 <= u < 16 ensures c[u] == W(block, u) {
      assert c[u] == c[..16][u];
    }
  }

  // ----- the rounds -----

  /** Eighty packed rounds and the final lane-wise addition are the standard's compression. */
  method Compress(h: bv256, c: array<W32>, ghost block: seq<W32>, ghost s: State) returns (h': bv256)
    requires c.Length >= 88 && |block| == 16 && Filled(c[..], block, 80) && h == Pack(s)
    ensures h' == Pack(PlusState(s, AfterRounds(s, block, 80)))
  {
    hide Pack, PackedRound, Join, TopLane, AddLanes, PlusState, Step, W, Wide;
    var x := h;
    for j := 0 to 80
      invariant x == Pack(AfterRounds(s, block, j))
    {
      TopOfJoin(OctetAt(c[..], j));
      PackedRoundIsStep(AfterRounds(s, block, j), j, c[j]);
      x := PackedRound(x, j, TopLane(LoadCells(c[..], j)));
    }
    AddLanesIsPlus(s, AfterRounds(s, block, 80));
    h' := AddLanes(h, x);
  }

  // ----- padding -----

  /** The padded length, by masking len + 1 down to whole blocks. */
  function TotalLen(len: nat): nat {
    var total := (len + 1) - (len + 1) % 64 + 64;
    if total - len < 9 then total + 64 else total
  }

  lemma TotalLenIsPadded(data: Bytes)
    ensures TotalLen(|data|) == |Padded(data)|
  {
    hide Be, Zeros;
    var len := |data|;
    ZerosLength(ZeroCount(len));
    assert |Padded(data)| == len + 9 + ZeroCount(len);
    TotalLenCounts(len);
  }

  lemma TotalLenCounts(len: nat)
    ensures TotalLen(len) == len + 9 + ZeroCount(len)
  {
    var q, r := len / 64, len % 64;
    assert len == 64 * q + r;
    if r == 63 {
      ModUnique(len + 1, 64, q + 1, 0);
    } else {
      ModUnique(len + 1, 64, q, r + 1);
    }
  }

  /** `readword`: 32 bytes from `off` on, those past `count` masked out. */
  function ReadWord(m: Bytes, ptr: nat, off: nat, count: nat): (x: Word)
    requires ptr + count + 32 <= |m|
  {
    if off < count then
      var w := MLoad(m, ptr + off);
      if count - off < 32 then HighBytes(w, 32 - (count - off)) else w
    else 0
  }

  /** n bytes from `off` on, with zeros for those past the end. */
  function Window(data: Bytes, off: nat, n: nat): Bytes {
    seq(n, k requires 0 <= k < n => if off + k < |data| then data[off + k] else 0)
  }

  lemma ReadWordIsWindow(m: Bytes, ptr: nat, off: nat, data: Bytes)
    requires ptr + |data| + 32 <= |m| && m[ptr..ptr + |data|] == data
    ensures Be32(ReadWord(m, ptr, off, |data|)) == Window(data, off, 32)
  {
    hide FromBe, Be, HighBytes;
    var count := |data|;
    if off >= count {
      FromBeZeros(32);
      FromBe32(Zeros(32));
      assert Window(data, off, 32) == Zeros(32);
    } else if count - off < 32 {
      var n := count - off;
      var front, after := data[off..], m[ptr + count..ptr + off + 32];
      SliceOfSlice(m, ptr, ptr + count, off, count);
      assert m[ptr + off..ptr + off + 32] == front + after;
      LowOfConcat(front, after);
      FromBeConcat(front, Zeros(32 - n));
      FromBeZeros(32 - n);
      FromBe32(front + Zeros(32 - n));
      assert Window(data, off, 32) == front + Zeros(32 - n);
    } else {
      SliceOfSlice(m, ptr, ptr + count, off, off + 32);
      assert Window(data, off, 32) == data[off..off + 32];
      FromBe32(data[off..off + 32]);
    }
  }

  /** Bitwise or. */
  function OrBits(a: nat, b: nat): nat {
    if a == 0 then b
    else if b == 0 then a
    else 2 * OrBits(a / 2, b / 2) + (if a % 2 == 1 || b % 2 == 1 then 1 else 0)
  }

  /** Numbers without common bits: or is a sum. */
  lemma {:induction false} OrIsSum(x: nat, v: nat, k: nat)
    requires v < Pow2(k)
    ensures OrBits(x * Pow2(k), v) == x * Pow2(k) + v
    decreases k, v
  {
    if k > 0 && x > 0 && v > 0 {
      var a := x * Pow2(k);
      assert a == 2 * (x * Pow2(k - 1));
      OrIsSum(x, v / 2, k - 1);
      assert a > 0;
    }
  }

  lemma {:induction false} Pow2Add(i: nat, j: nat)
    ensures Pow2(i + j) == Pow2(i) * Pow2(j)
  {
    if i > 0 {
      Pow2Add(i - 1, j);
    }
  }

  lemma SixtyFourBits()
    ensures Pow2(64) == TWO_TO_64
  {
    hide Pow2;
    EightBits();
    Pow2Add(8, 8);
    Pow2Add(16, 16);
    Pow2Add(32, 32);
  }

  lemma EightBits()
    ensures Pow2(8) == 256
  {
  }

  /** Or-ing a 64-bit number into a word whose last 8 bytes are zero stores it there. */
  lemma OrStoresLength(b: Bytes, v: nat)
    requires |b| == 32 && b[24..] == Zeros(8) && v < TWO_TO_64
    ensures OrBits(FromBe(b), v) < TWO_TO_256 && Be32(OrBits(FromBe(b), v)) == b[..24] + Be(v, 8)
  {
    hide FromBe, Be, OrBits, Zeros;
    var tail := Be(v, 8);
    assert b == b[..24] + b[24..];
    FromBeZeros(8);
    FromBeConcat(b[..24], Zeros(8));
    FromBeConcat(b[..24], tail);
    FromBeOfBe(v, 8);
    Pow256Of32();
    ModUnique(v, TWO_TO_64, 0, v);
    SixtyFourBits();
    OrIsSum(FromBe(b[..24]), v, 64);
    FromBe32(b[..24] + tail);
  }

  /** Byte k of the padded message. */
  lemma PaddedByte(data: Bytes, k: nat)
    requires k < |Padded(data)|
    ensures
      var end := |Padded(data)| - 8;
      && |data| < end
      && Padded(data)[k] ==
        if k < |data| then data[k]
        else if k == |data| then 0x80
        else if k < end then 0
        else Be(8 * |data|, 8)[k - end]
  {
    hide Be;
  }

  /** The data with its terminator, and zeros from there on. */
  function Terminated(data: Bytes, i: nat): Bytes {
    Window(data + [0x80], i, 64)
  }

  lemma WindowsJoin(data: Bytes, i: nat)
    ensures Window(data, i, 32) + Window(data, i + 32, 32) == Window(data, i, 64)
  {
  }

  lemma Terminate(data: Bytes, i: nat)
    ensures Terminated(data, i) ==
      if i <= |data| < i + 64 then Window(data, i, 64)[|data| - i := 0x80] else Window(data, i, 64)
  {
  }

  lemma MiddleBlock(data: Bytes, i: nat)
    requires i + 128 <= |Padded(data)|
    ensures Terminated(data, i) == Padded(data)[i..i + 64]
  {
    hide Padded;
    forall k | 0 <= k < 64 ensures Terminated(data, i)[k] == Padded(data)[i..i + 64][k] {
      PaddedByte(data, i + k);
    }
  }

  lemma LastBlock(data: Bytes, i: nat)
    requires i + 64 == |Padded(data)|
    ensures Terminated(data, i)[32..][24..] == Zeros(8)
    ensures Terminated(data, i)[..56] + Be(8 * |data|, 8) == Padded(data)[i..]
  {
    hide Padded, Be;
    forall k | 0 <= k < 64
      ensures Padded(data)[i..][k] == if k < 56 then Terminated(data, i)[k] else Be(8 * |data|, 8)[k - 56]
      ensures k >= 56 ==> Terminated(data, i)[k] == 0
    {
      PaddedByte(data, i + k);
    }
  }

  lemma LengthStored(b: Bytes, v: nat)
    requires |b| == 64 && b[32..][24..] == Zeros(8) && v < TWO_TO_64
    ensures
      var w := OrBits(FromBe(b[32..]), v);
      w < TWO_TO_256 && b[..32] + Be32(w) == b[..56] + Be(v, 8)
  {
    hide FromBe, Be, OrBits, Zeros, Be32;
    OrStoresLength(b[32..], v);
    assert b[..32] + b[32..][..24] == b[..56];
  }

  /** The block at offset i: two masked words, the terminator byte, and the length in the last block. */
  method FillBlock(scratch: array<Byte>, m: Bytes, ptr: nat, len: nat, i: nat, total: nat, ghost data: Bytes)
    requires scratch.Length == 64 && len == |data| && ptr + len + 32 <= |m| && m[ptr..ptr + len] == data
    requires total == |Padded(data)| && i + 64 <= total && total % 64 == i % 64 && len < TWO_TO_64 / 8
    modifies scratch
    ensures scratch[..] == Padded(data)[i..i + 64]
  {
    hide MLoad, ReadWord, OrBits, Be, Be32, Window, Padded, Terminated, FromBe;
    MStore(scratch, 0, ReadWord(m, ptr, i, len));
    MStore(scratch, 32, ReadWord(m, ptr, i + 32, len));
    ReadWordIsWindow(m, ptr, i, data);
    ReadWordIsWindow(m, ptr, i + 32, data);
    WindowsJoin(data, i);
    assert scratch[..] == Window(data, i, 64);
    Terminate(data, i);
    if i <= len < i + 64 {
      scratch[len - i] := 0x80;
    }
    assert scratch[..] == Terminated(data, i);
    FinishBlock(scratch, len, i, total, data);
  }

  method FinishBlock(scratch: array<Byte>, len: nat, i: nat, total: nat, ghost data: Bytes)
    requires scratch.Length == 64 && len == |data| && len < TWO_TO_64 / 8
    requires total == |Padded(data)| && i + 64 <= total && total % 64 == i % 64
    requires scratch[..] == Terminated(data, i)
    modifies scratch
    ensures scratch[..] == Padded(data)[i..i + 64]
  {
    hide OrBits, Be, Be32, Padded, Terminated, FromBe;
    if i == total - 64 {
      LastBlock(data, i);
      LengthStored(scratch[..], 8 * len);
      LoadIsFromBe(scratch[..]);
      var w := MLoad(scratch[..], 32);
      MStore(scratch, 32, OrBits(w, 8 * len));
    } else {
      MiddleBlock(data, i);
    }
  }

  lemma LoadIsFromBe(b: Bytes)
    requires |b| == 64
    ensures MLoad(b, 32) == FromBe(b[32..])
  {
    assert b[32..64] == b[32..];
  }

  // ----- the whole function -----

  lemma BlockWordAt(b: Bytes, t: nat)
    requires |b| == 64 && t < 16
    ensures BlockWords(b)[t] == Word4(b[4 * t..4 * t + 4])
  {
  }

  /** The scratch memory's first 64 bytes, as cells. */
  method LoadBlock(b: Bytes, c: array<W32>)
    requires |b| == 64 && c.Length >= 16
    modifies c
    ensures c[..16] == BlockWords(b)
  {
    hide Word4;
    for t := 0 to 16
      invariant c[..t] == BlockWords(b)[..t]
    {
      BlockWordAt(b, t);
      ghost var done := c[..t];
      c[t] := Word4(b[4 * t..4 * t + 4]);
      assert c[..t + 1] == done + [c[t]];
    }
  }

  /** The digest of the `len` bytes at `ptr`, left-aligned in a word, is the standard's. */
  method Sha1(m: Bytes, ptr: nat, len: nat, ghost data: Bytes) returns (ret: bv256)
    requires len == |data| && ptr + len + 32 <= |m| && m[ptr..ptr + len] == data && len < TWO_TO_64 / 8
    ensures
      var s := Sha1Of(data);
      Split(ret) == Octet(s.a, s.b, s.c, s.d, s.e, 0, 0, 0)
  {
    hide Pack, Split, PackedDigest, Padded, BlockWords, AfterRounds, PlusState, TotalLen;
    var scratch, cells := new Byte[64], new W32[88];
    var total := TotalLen(len);
    TotalLenIsPadded(data);
    PaddedIsBlocks(data);
    var h: bv256 := 0x6745230100EFCDAB890098BADCFE001032547600C3D2E1F0;
    InitialPacked();
    var i := 0;
    while i < total
      invariant i % 64 == 0 && i <= total
      invariant h == Pack(AfterBlocks(Padded(data), i / 64))
      decreases total - i
    {
      ghost var s := AfterBlocks(Padded(data), i / 64);
      FillBlock(scratch, m, ptr, len, i, total, data);
      LoadBlock(scratch[..], cells);
      ghost var block := BlockWords(scratch[..]);
      Expand(cells, block);
      h := Compress(h, cells, block, s);
      NextBlock(Padded(data), i);
      i := i + 64;
    }
    PackedDigestIsState(AfterBlocks(Padded(data), i / 64));
    ret := PackedDigest(h);
  }

  lemma InitialPacked()
    ensures Pack(INITIAL) == 0x6745230100EFCDAB890098BADCFE001032547600C3D2E1F0
  {
  }

  lemma NextBlock(message: Bytes, i: nat)
    requires i % 64 == 0 && i + 64 <= |message|
    ensures (i + 64) / 64 == i / 64 + 1
    ensures
      var s := AfterBlocks(message, i / 64);
      AfterBlocks(message, (i + 64) / 64) == PlusState(s, AfterRounds(s, BlockWords(message[i..i + 64]), 80))
  {
    hide PlusState, AfterRounds, BlockWords;
  }
}
