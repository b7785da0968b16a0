/** The word operations of SHA-1 (sections 4.1.1 and 6.1 of FIPS 180-4), and the same operations done on
    256-bit machine words: eight 32-bit lanes side by side, or five state words in 40-bit lanes. */
module Sha1Words {
  type W32 = bv32

  // ----- the standard's operations -----

  function Rotl1(x: W32): W32 { (x << 1) | (x >> 31) }

  function Rotl2(x: W32): W32 { (x << 2) | (x >> 30) }

  function Rotl5(x: W32): W32 { (x << 5) | (x >> 27) }

  function Rotl30(x: W32): W32 { (x << 30) | (x >> 2) }

  function Ch(x: W32, y: W32, z: W32): W32 { (x & y) ^ (!x & z) }

  function Parity(x: W32, y: W32, z: W32): W32 { x ^ y ^ z }

  function Maj(x: W32, y: W32, z: W32): W32 { (x & y) ^ (x & z) ^ (y & z) }

  /** Addition modulo 2^32. */
  function Plus(x: W32, y: W32): W32 { x + y }

  datatype State = State(a: W32, b: W32, c: W32, d: W32, e: W32)

  /** The logical function of round t. */
  function Ft(t: nat, s: State): W32 {
    if t < 20 then Ch(s.b, s.c, s.d)
    else if t < 40 then Parity(s.b, s.c, s.d)
    else if t < 60 then Maj(s.b, s.c, s.d)
    else Parity(s.b, s.c, s.d)
  }

  function Kt(t: nat): W32 {
    if t < 20 then 0x5A827999 else if t < 40 then 0x6ED9EBA1 else if t < 60 then 0x8F1BBCDC else 0xCA62C1D6
  }

  /** The integer part of 2^30 times the square root of n. */
  predicate IsScaledRoot(k: W32, n: nat) {
    var i := k as int;
    i * i <= n * 0x1000_0000_0000_0000 < (i + 1) * (i + 1)
  }

  /** Where the round constants come from: the square roots of 2, 3, 5 and 10. */
  lemma RoundConstants(t: nat)
    ensures IsScaledRoot(Kt(t), if t < 20 then 2 else if t < 40 then 3 else if t < 60 then 5 else 10)
  {
  }

  /** One round: T = ROTL5(a) + ft(b, c, d) + e + Kt + Wt. */
  function Step(s: State, f: W32, k: W32, w: W32): State {
    State(Plus(Plus(Plus(Plus(Rotl5(s.a), f), s.e), k), w), s.a, Rotl30(s.b), s.c, s.d)
  }

  function PlusState(s: State, t: State): State {
    State(Plus(s.a, t.a), Plus(s.b, t.b), Plus(s.c, t.c), Plus(s.d, t.d), Plus(s.e, t.e))
  }

  // ----- eight lanes -----

  // The bit-vector identities are stated once with every operand written out, in the lemmas called
  // ...Terms, and used from then on with the definitions hidden.

  /** Eight 32-bit words, as they lie in a 32-byte word of memory. */
  datatype Octet = Octet(a: W32, b: W32, c: W32, d: W32, e: W32, f: W32, g: W32, h: W32)

  function Join8(a: W32, b: W32, c: W32, d: W32, e: W32, f: W32, g: W32, h: W32): bv256 {
    ((a as bv256) << 224) | ((b as bv256) << 192) | ((c as bv256) << 160) | ((d as bv256) << 128) |
    ((e as bv256) << 96) | ((f as bv256) << 64) | ((g as bv256) << 32) | (h as bv256)
  }

  function Join(o: Octet): bv256 {
    Join8(o.a, o.b, o.c, o.d, o.e, o.f, o.g, o.h)
  }

  function Split(x: bv256): Octet {
    Octet(
      ((x >> 224) & 0xFFFFFFFF) as bv32, ((x >> 192) & 0xFFFFFFFF) as bv32,
      ((x >> 160) & 0xFFFFFFFF) as bv32, ((x >> 128) & 0xFFFFFFFF) as bv32,
      ((x >> 96) & 0xFFFFFFFF) as bv32, ((x >> 64) & 0xFFFFFFFF) as bv32,
      ((x >> 32) & 0xFFFFFFFF) as bv32, (x & 0xFFFFFFFF) as bv32)
  }

  lemma Join8Terms(a: W32, b: W32, c: W32, d: W32, e: W32, f: W32, g: W32, h: W32)
    ensures Join8(a, b, c, d, e, f, g, h) ==
      ((a as bv256) << 224) | ((b as bv256) << 192) | ((c as bv256) << 160) | ((d as bv256) << 128) |
      ((e as bv256) << 96) | ((f as bv256) << 64) | ((g as bv256) << 32) | (h as bv256)
  {
  }

  lemma SplitTerms(a: W32, b: W32, c: W32, d: W32, e: W32, f: W32, g: W32, h: W32)
    ensures Split(
      ((a as bv256) << 224) | ((b as bv256) << 192) | ((c as bv256) << 160) | ((d as bv256) << 128) |
      ((e as bv256) << 96) | ((f as bv256) << 64) | ((g as bv256) << 32) | (h as bv256))
      == Octet(a, b, c, d, e, f, g, h)
  {
  }

  lemma SplitOfJoin8(a: W32, b: W32, c: W32, d: W32, e: W32, f: W32, g: W32, h: W32)
    ensures Split(Join8(a, b, c, d, e, f, g, h)) == Octet(a, b, c, d, e, f, g, h)
  {
    hide Split, Join8;
    Join8Terms(a, b, c, d, e, f, g, h);
    SplitTerms(a, b, c, d, e, f, g, h);
  }

  lemma SplitOfJoin(o: Octet)
    ensures Split(Join(o)) == o
  {
    hide Split, Join8;
    SplitOfJoin8(o.a, o.b, o.c, o.d, o.e, o.f, o.g, o.h);
  }

  function Each(o: Octet, f: W32 -> W32): Octet {
    Octet(f(o.a), f(o.b), f(o.c), f(o.d), f(o.e), f(o.f), f(o.g), f(o.h))
  }

  function Xor(x: bv256, y: bv256): bv256 {
    x ^ y
  }

  function Xor32(x: W32, y: W32): W32 {
    x ^ y
  }

  function XorEach(o: Octet, p: Octet): Octet {
    Octet(Xor32(o.a, p.a), Xor32(o.b, p.b), Xor32(o.c, p.c), Xor32(o.d, p.d),
      Xor32(o.e, p.e), Xor32(o.f, p.f), Xor32(o.g, p.g), Xor32(o.h, p.h))
  }

  lemma XorTerms(a: W32, b: W32, c: W32, d: W32, e: W32, f: W32, g: W32, h: W32,
                 a': W32, b': W32, c': W32, d': W32, e': W32, f': W32, g': W32, h': W32)
    ensures Xor(
      ((a as bv256) << 224) | ((b as bv256) << 192) | ((c as bv256) << 160) | ((d as bv256) << 128) |
      ((e as bv256) << 96) | ((f as bv256) << 64) | ((g as bv256) << 32) | (h as bv256),
      ((a' as bv256) << 224) | ((b' as bv256) << 192) | ((c' as bv256) << 160) | ((d' as bv256) << 128) |
      ((e' as bv256) << 96) | ((f' as bv256) << 64) | ((g' as bv256) << 32) | (h' as bv256))
      == (
      (((a ^ a') as bv256) << 224) | (((b ^ b') as bv256) << 192) |
      (((c ^ c') as bv256) << 160) | (((d ^ d') as bv256) << 128) |
      (((e ^ e') as bv256) << 96) | (((f ^ f') as bv256) << 64) | (((g ^ g') as bv256) << 32) | ((h ^ h') as bv256))
  {
  }

  lemma XorIsJoin8(a: W32, b: W32, c: W32, d: W32, e: W32, f: W32, g: W32, h: W32,
                 a': W32, b': W32, c': W32, d': W32, e': W32, f': W32, g': W32, h': W32)
    ensures Xor(
      ((a as bv256) << 224) | ((b as bv256) << 192) | ((c as bv256) << 160) | ((d as bv256) << 128) |
      ((e as bv256) << 96) | ((f as bv256) << 64) | ((g as bv256) << 32) | (h as bv256),
      ((a' as bv256) << 224) | ((b' as bv256) << 192) | ((c' as bv256) << 160) | ((d' as bv256) << 128) |
      ((e' as bv256) << 96) | ((f' as bv256) << 64) | ((g' as bv256) << 32) | (h' as bv256))
      == Join8(a ^ a', b ^ b', c ^ c', d ^ d', e ^ e', f ^ f', g ^ g', h ^ h')
  {
    hide Xor, Join8;
    XorTerms(a, b, c, d, e, f, g, h, a', b', c', d', e', f', g', h');
    Join8Terms(a ^ a', b ^ b', c ^ c', d ^ d', e ^ e', f ^ f', g ^ g', h ^ h');
  }

  lemma XorOfJoinTerms(a: W32, b: W32, c: W32, d: W32, e: W32, f: W32, g: W32, h: W32,
                 a': W32, b': W32, c': W32, d': W32, e': W32, f': W32, g': W32, h': W32)
    ensures Xor(Join8(a, b, c, d, e, f, g, h), Join8(a', b', c', d', e', f', g', h')) == Join8(a ^ a', b ^ b',
        c ^ c', d ^ d', e ^ e', f ^ f', g ^ g', h ^ h')
  {
    hide Xor, Join8;
    Join8Terms(a, b, c, d, e, f, g, h);
    Join8Terms(a', b', c', d', e', f', g', h');
    XorIsJoin8(a, b, c, d, e, f, g, h, a', b', c', d', e', f', g', h');
  }

  lemma Xor32Def(x: W32, y: W32)
    ensures Xor32(x, y) == x ^ y
  {
  }

  lemma XorOfJoin8(a: W32, b: W32, c: W32, d: W32, e: W32, f: W32, g: W32, h: W32,
                 a': W32, b': W32, c': W32, d': W32, e': W32, f': W32, g': W32, h': W32)
    ensures Xor(Join8(a, b, c, d, e, f, g, h), Join8(a', b', c', d', e', f', g', h')) ==
      Join8(Xor32(a, a'), Xor32(b, b'), Xor32(c, c'), Xor32(d, d'),
        Xor32(e, e'), Xor32(f, f'), Xor32(g, g'), Xor32(h, h'))
  {
    hide Xor, Join8, Xor32;
    XorOfJoinTerms(a, b, c, d, e, f, g, h, a', b', c', d', e', f', g', h');
    Xor32Def(a, a');
    Xor32Def(b, b');
    Xor32Def(c, c');
    Xor32Def(d, d');
    Xor32Def(e, e');
    Xor32Def(f, f');
    Xor32Def(g, g');
    Xor32Def(h, h');
  }

  lemma XorOfJoin(o: Octet, p: Octet)
    ensures Xor(Join(o), Join(p)) == Join(XorEach(o, p))
  {
    hide Xor, Join8, Xor32;
    XorOfJoin8(o.a, o.b, o.c, o.d, o.e, o.f, o.g, o.h, p.a, p.b, p.c, p.d, p.e, p.f, p.g, p.h);
  }

  /** Every lane rotated left by one, by a shift of the whole word each way and masks. */
  function RotateLanes1(temp: bv256): bv256 {
    ((temp * 2) & 0xFFFFFFFEFFFFFFFEFFFFFFFEFFFFFFFEFFFFFFFEFFFFFFFEFFFFFFFEFFFFFFFE) |
    ((temp / 0x80000000) & 0x0000000100000001000000010000000100000001000000010000000100000001)
  }

  function RotateLanes2(temp: bv256): bv256 {
    ((temp * 4) & 0xFFFFFFFCFFFFFFFCFFFFFFFCFFFFFFFCFFFFFFFCFFFFFFFCFFFFFFFCFFFFFFFC) |
    ((temp / 0x40000000) & 0x0000000300000003000000030000000300000003000000030000000300000003)
  }

  /** The bits that cross into the neighbouring lane are the ones the masks drop. */
  lemma Rotate1Terms(a: W32, b: W32, c: W32, d: W32, e: W32, f: W32, g: W32, h: W32)
    ensures RotateLanes1(
      ((a as bv256) << 224) | ((b as bv256) << 192) | ((c as bv256) << 160) | ((d as bv256) << 128) |
      ((e as bv256) << 96) | ((f as bv256) << 64) | ((g as bv256) << 32) | (h as bv256))
      == (
      ((((a << 1) | (a >> 31)) as bv256) << 224) | ((((b << 1) | (b >> 31)) as bv256) << 192) |
      ((((c << 1) | (c >> 31)) as bv256) << 160) | ((((d << 1) | (d >> 31)) as bv256) << 128) |
      ((((e << 1) | (e >> 31)) as bv256) << 96) | ((((f << 1) | (f >> 31)) as bv256) << 64) |
      ((((g << 1) | (g >> 31)) as bv256) << 32) | (((h << 1) | (h >> 31)) as bv256))
  {
  }

  lemma Rotate1IsJoin8(a: W32, b: W32, c: W32, d: W32, e: W32, f: W32, g: W32, h: W32)
    ensures RotateLanes1(
      ((a as bv256) << 224) | ((b as bv256) << 192) | ((c as bv256) << 160) | ((d as bv256) << 128) |
      ((e as bv256) << 96) | ((f as bv256) << 64) | ((g as bv256) << 32) | (h as bv256))
      == Join8((a << 1) | (a >> 31), (b << 1) | (b >> 31), (c << 1) | (c >> 31), (d << 1) | (d >> 31),
        (e << 1) | (e >> 31), (f << 1) | (f >> 31), (g << 1) | (g >> 31), (h << 1) | (h >> 31))
  {
    hide RotateLanes1, Join8;
    Rotate1Terms(a, b, c, d, e, f, g, h);
    Join8Terms((a << 1) | (a >> 31), (b << 1) | (b >> 31), (c << 1) | (c >> 31), (d << 1) | (d >> 31),
        (e << 1) | (e >> 31), (f << 1) | (f >> 31), (g << 1) | (g >> 31), (h << 1) | (h >> 31));
  }

  lemma Rotl1Def(x: W32)
    ensures Rotl1(x) == (x << 1) | (x >> 31)
  {
  }

  lemma Rotate1OfJoinTerms(a: W32, b: W32, c: W32, d: W32, e: W32, f: W32, g: W32, h: W32)
    ensures RotateLanes1(Join8(a, b, c, d, e, f, g, h)) == Join8((a << 1) | (a >> 31), (b << 1) | (b >> 31),
        (c << 1) | (c >> 31), (d << 1) | (d >> 31),
        (e << 1) | (e >> 31), (f << 1) | (f >> 31), (g << 1) | (g >> 31), (h << 1) | (h >> 31))
  {
    hide RotateLanes1, Join8;
    Join8Terms(a, b, c, d, e, f, g, h);
    Rotate1IsJoin8(a, b, c, d, e, f, g, h);
  }

  lemma Rotate1OfJoin8(a: W32, b: W32, c: W32, d: W32, e: W32, f: W32, g: W32, h: W32)
    ensures RotateLanes1(Join8(a, b, c, d, e, f, g, h)) ==
      Join8(Rotl1(a), Rotl1(b), Rotl1(c), Rotl1(d), Rotl1(e), Rotl1(f), Rotl1(g), Rotl1(h))
  {
    hide RotateLanes1, Join8, Rotl1;
    Rotate1OfJoinTerms(a, b, c, d, e, f, g, h);
    Rotl1Def(a);
    Rotl1Def(b);
    Rotl1Def(c);
    Rotl1Def(d);
    Rotl1Def(e);
    Rotl1Def(f);
    Rotl1Def(g);
    Rotl1Def(h);
  }

  lemma Rotate1OfJoin(o: Octet)
    ensures RotateLanes1(Join(o)) == Join(Each(o, Rotl1))
  {
    hide RotateLanes1, Join8, Rotl1;
    Rotate1OfJoin8(o.a, o.b, o.c, o.d, o.e, o.f, o.g, o.h);
  }

  /** The bits that cross into the neighbouring lane are the ones the masks drop. */
  lemma Rotate2Terms(a: W32, b: W32, c: W32, d: W32, e: W32, f: W32, g: W32, h: W32)
    ensures RotateLanes2(
      ((a as bv256) << 224) | ((b as bv256) << 192) | ((c as bv256) << 160) | ((d as bv256) << 128) |
      ((e as bv256) << 96) | ((f as bv256) << 64) | ((g as bv256) << 32) | (h as bv256))
      == (
      ((((a << 2) | (a >> 30)) as bv256) << 224) | ((((b << 2) | (b >> 30)) as bv256) << 192) |
      ((((c << 2) | (c >> 30)) as bv256) << 160) | ((((d << 2) | (d >> 30)) as bv256) << 128) |
      ((((e << 2) | (e >> 30)) as bv256) << 96) | ((((f << 2) | (f >> 30)) as bv256) << 64) |
      ((((g << 2) | (g >> 30)) as bv256) << 32) | (((h << 2) | (h >> 30)) as bv256))
  {
  }

  lemma Rotate2IsJoin8(a: W32, b: W32, c: W32, d: W32, e: W32, f: W32, g: W32, h: W32)
    ensures RotateLanes2(
      ((a as bv256) << 224) | ((b as bv256) << 192) | ((c as bv256) << 160) | ((d as bv256) << 128) |
      ((e as bv256) << 96) | ((f as bv256) << 64) | ((g as bv256) << 32) | (h as bv256))
      == Join8((a << 2) | (a >> 30), (b << 2) | (b >> 30), (c << 2) | (c >> 30), (d << 2) | (d >> 30),
        (e << 2) | (e >> 30), (f << 2) | (f >> 30), (g << 2) | (g >> 30), (h << 2) | (h >> 30))
  {
    hide RotateLanes2, Join8;
    Rotate2Terms(a, b, c, d, e, f, g, h);
    Join8Terms((a << 2) | (a >> 30), (b << 2) | (b >> 30), (c << 2) | (c >> 30), (d << 2) | (d >> 30),
        (e << 2) | (e >> 30), (f << 2) | (f >> 30), (g << 2) | (g >> 30), (h << 2) | (h >> 30));
  }

  lemma Rotl2Def(x: W32)
    ensures Rotl2(x) == (x << 2) | (x >> 30)
  {
  }

  lemma Rotate2OfJoinTerms(a: W32, b: W32, c: W32, d: W32, e: W32, f: W32, g: W32, h: W32)
    ensures RotateLanes2(Join8(a, b, c, d, e, f, g, h)) == Join8((a << 2) | (a >> 30), (b << 2) | (b >> 30),
        (c << 2) | (c >> 30), (d << 2) | (d >> 30),
        (e << 2) | (e >> 30), (f << 2) | (f >> 30), (g << 2) | (g >> 30), (h << 2) | (h >> 30))
  {
    hide RotateLanes2, Join8;
    Join8Terms(a, b, c, d, e, f, g, h);
    Rotate2IsJoin8(a, b, c, d, e, f, g, h);
  }

  lemma Rotate2OfJoin8(a: W32, b: W32, c: W32, d: W32, e: W32, f: W32, g: W32, h: W32)
    ensures RotateLanes2(Join8(a, b, c, d, e, f, g, h)) ==
      Join8(Rotl2(a), Rotl2(b), Rotl2(c), Rotl2(d), Rotl2(e), Rotl2(f), Rotl2(g), Rotl2(h))
  {
    hide RotateLanes2, Join8, Rotl2;
    Rotate2OfJoinTerms(a, b, c, d, e, f, g, h);
    Rotl2Def(a);
    Rotl2Def(b);
    Rotl2Def(c);
    Rotl2Def(d);
    Rotl2Def(e);
    Rotl2Def(f);
    Rotl2Def(g);
    Rotl2Def(h);
  }

  lemma Rotate2OfJoin(o: Octet)
    ensures RotateLanes2(Join(o)) == Join(Each(o, Rotl2))
  {
    hide RotateLanes2, Join8, Rotl2;
    Rotate2OfJoin8(o.a, o.b, o.c, o.d, o.e, o.f, o.g, o.h);
  }

  // ----- five state words, 40 bits apart -----

  function Pack5(a: W32, b: W32, c: W32, d: W32, e: W32): bv256 {
    ((a as bv256) << 160) | ((b as bv256) << 120) | ((c as bv256) << 80) | ((d as bv256) << 40) | (e as bv256)
  }

  function Pack(s: State): bv256 {
    Pack5(s.a, s.b, s.c, s.d, s.e)
  }

  function Low(x: bv256): W32 {
    (x & 0xFFFFFFFF) as bv32
  }

  /** The machine's 256-bit `add`. */
  function Add(x: bv256, y: bv256): bv256 {
    x + y
  }

  lemma LowAdd(x: bv256, y: bv256)
    ensures Low(Add(x, y)) == Plus(Low(x), Low(y))
  {
    LowAddTerms(x, y);
  }

  lemma LowAddTerms(x: bv256, y: bv256)
    ensures Low(x + y) == Plus((x & 0xFFFFFFFF) as bv32, (y & 0xFFFFFFFF) as bv32)
  {
  }

  /** f for the round group t / 20, on the packed word: each operand is shifted into place and nothing is
      masked, so only the low 32 bits mean anything. */
  function PackedF(group: nat, x: bv256): bv256 {
    if group == 0 then
      var f := (x / 0x100000000000000000000) ^ (x / 0x10000000000);
      var g := (x / 0x1000000000000000000000000000000) & f;
      (x / 0x10000000000) ^ g
    else if group == 2 then
      var f := (x / 0x1000000000000000000000000000000) | (x / 0x100000000000000000000);
      var g := (x / 0x10000000000) & f;
      ((x / 0x1000000000000000000000000000000) & (x / 0x100000000000000000000)) | g
    else
      var f := (x / 0x1000000000000000000000000000000) ^ (x / 0x100000000000000000000);
      (x / 0x10000000000) ^ f
  }

  lemma PackedFIsFt(t: nat, s: State)
    requires t < 80
    ensures Low(PackedF(t / 20, Pack(s))) == Ft(t, s)
  {
    hide Low, PackedF, Pack5, Ch, Maj, Parity;
    if t < 20 {
      PackedCh(s.a, s.b, s.c, s.d, s.e);
    } else if t < 40 {
      PackedParity1(s.a, s.b, s.c, s.d, s.e);
    } else if t < 60 {
      PackedMaj(s.a, s.b, s.c, s.d, s.e);
    } else {
      PackedParity3(s.a, s.b, s.c, s.d, s.e);
    }
  }

  lemma PackedCh(a: W32, b: W32, c: W32, d: W32, e: W32)
    ensures Low(PackedF(0, Pack5(a, b, c, d, e))) == Ch(b, c, d)
  {
  }

  lemma PackedMaj(a: W32, b: W32, c: W32, d: W32, e: W32)
    ensures Low(PackedF(2, Pack5(a, b, c, d, e))) == Maj(b, c, d)
  {
  }

  lemma PackedParity1(a: W32, b: W32, c: W32, d: W32, e: W32)
    ensures Low(PackedF(1, Pack5(a, b, c, d, e))) == Parity(b, c, d)
  {
  }

  lemma PackedParity3(a: W32, b: W32, c: W32, d: W32, e: W32)
    ensures Low(PackedF(3, Pack5(a, b, c, d, e))) == Parity(b, c, d)
  {
  }

  function PackedRotl5(x: bv256): bv256 {
    ((x / 0x800000000000000000000000000000000000000) & 0xFFFFFFE0) |
    ((x / 0x80000000000000000000000000000000000000000000000) & 0x1F)
  }

  lemma Rotl5OfPack5(a: W32, b: W32, c: W32, d: W32, e: W32)
    ensures Low(PackedRotl5(Pack5(a, b, c, d, e))) == Rotl5(a)
  {
  }

  /** The lane of e. */
  function LaneE(x: bv256): bv256 {
    x & 0xFFFFFFFF
  }

  lemma LowOfPack5(a: W32, b: W32, c: W32, d: W32, e: W32)
    ensures Low(LaneE(Pack5(a, b, c, d, e))) == e
  {
  }

  function PackedTemp(x: bv256, f: bv256, k: bv256, w: bv256): bv256 {
    Add(w, Add(k, Add(LaneE(x), Add(f, PackedRotl5(x)))))
  }

  lemma LowTemp(s: State, f: bv256, k: bv256, w: bv256)
    ensures Low(PackedTemp(Pack(s), f, k, w)) ==
      Plus(Low(w), Plus(Low(k), Plus(s.e, Plus(Low(f), Rotl5(s.a)))))
  {
    hide Low, Add, Plus, Pack5, PackedRotl5, Rotl5, LaneE;
    var x := Pack(s);
    var t1 := Add(f, PackedRotl5(x));
    var t2 := Add(LaneE(x), t1);
    var t3 := Add(k, t2);
    Rotl5OfPack5(s.a, s.b, s.c, s.d, s.e);
    LowOfPack5(s.a, s.b, s.c, s.d, s.e);
    LowAdd(f, PackedRotl5(x));
    LowAdd(LaneE(x), t1);
    LowAdd(k, t2);
    LowAdd(w, t3);
  }

  lemma PlusReorder(a: W32, f: W32, e: W32, k: W32, w: W32)
    ensures Plus(w, Plus(k, Plus(e, Plus(f, a)))) == Plus(Plus(Plus(Plus(a, f), e), k), w)
  {
    hide Plus;
    PlusComm(f, a);
    PlusComm(e, Plus(f, a));
    PlusComm(k, Plus(e, Plus(f, a)));
    PlusComm(w, Plus(k, Plus(e, Plus(f, a))));
  }

  lemma PlusComm(x: W32, y: W32)
    ensures Plus(x, y) == Plus(y, x)
  {
  }

  /** The new a lane takes the low bits of temp, the others move down, and c becomes the old b rotated. */
  function PackedShift(x0: bv256, temp: bv256): bv256 {
    var x := (x0 / 0x10000000000) | (temp * 0x10000000000000000000000000000000000000000);
    (x & 0xFFFFFFFF00FFFFFFFF000000000000FFFFFFFF00FFFFFFFF) |
    ((((x / 0x4000000000000) & 0xC0000000) | ((x / 0x400000000000000000000) & 0x3FFFFFFF)) * 0x100000000000000000000)
  }

  lemma ShiftOfPack5(a: W32, b: W32, c: W32, d: W32, e: W32, temp: bv256)
    ensures PackedShift(Pack5(a, b, c, d, e), temp) == Pack5(Low(temp), a, Rotl30(b), c, d)
  {
  }

  /** A 32-bit word as a machine word. */
  function Wide(w: W32): bv256 {
    w as bv256
  }

  lemma LowOfWide(w: W32)
    ensures Low(Wide(w)) == w
  {
  }

  /** The first lane of a word. */
  function TopLane(x: bv256): bv256 {
    x / 0x100000000000000000000000000000000000000000000000000000000
  }

  lemma TopOfJoin8(a: W32, b: W32, c: W32, d: W32, e: W32, f: W32, g: W32, h: W32)
    ensures TopLane(Join8(a, b, c, d, e, f, g, h)) == Wide(a)
  {
  }

  lemma TopOfJoin(o: Octet)
    ensures TopLane(Join(o)) == Wide(o.a)
  {
    hide TopLane, Join8, Wide;
    TopOfJoin8(o.a, o.b, o.c, o.d, o.e, o.f, o.g, o.h);
  }

  function PackedRound(x: bv256, t: nat, w: bv256): bv256 {
    PackedShift(x, PackedTemp(x, PackedF(t / 20, x), Wide(Kt(t)), w))
  }

  /** A packed round is the standard round, and leaves five clean 32-bit words in their lanes. */
  lemma PackedRoundIsStep(s: State, t: nat, cell: W32)
    requires t < 80
    ensures PackedRound(Pack(s), t, Wide(cell)) == Pack(Step(s, Ft(t, s), Kt(t), cell))
  {
    hide Low, Add, Plus, Pack5, PackedF, PackedTemp, PackedShift, Kt, Ft, Rotl5, Rotl30, Wide;
    var f, k, w := PackedF(t / 20, Pack(s)), Wide(Kt(t)), Wide(cell);
    PackedFIsFt(t, s);
    LowTemp(s, f, k, w);
    LowOfWide(Kt(t));
    LowOfWide(cell);
    PlusReorder(Rotl5(s.a), Ft(t, s), s.e, Kt(t), cell);
    ShiftOfPack5(s.a, s.b, s.c, s.d, s.e, PackedTemp(Pack(s), f, k, w));
  }

  function AddLanes(h: bv256, x: bv256): bv256 {
    (h + x) & 0xFFFFFFFF00FFFFFFFF00FFFFFFFF00FFFFFFFF00FFFFFFFF
  }

  lemma Pack5Terms(a: W32, b: W32, c: W32, d: W32, e: W32)
    ensures Pack5(a, b, c, d, e) ==
      ((a as bv256) << 160) | ((b as bv256) << 120) | ((c as bv256) << 80) | ((d as bv256) << 40) | (e as bv256)
  {
  }

  lemma AddLanesTerms(a: W32, b: W32, c: W32, d: W32, e: W32, a': W32, b': W32, c': W32, d': W32, e': W32)
    ensures AddLanes(
      ((a as bv256) << 160) | ((b as bv256) << 120) | ((c as bv256) << 80) | ((d as bv256) << 40) | (e as bv256),
      ((a' as bv256) << 160) | ((b' as bv256) << 120) | ((c' as bv256) << 80) | ((d' as bv256) << 40) | (e' as bv256))
      == (((a + a') as bv256) << 160) | (((b + b') as bv256) << 120) | (((c + c') as bv256) << 80)
       | (((d + d') as bv256) << 40) | ((e + e') as bv256)
  {
  }

  lemma AddLanesIsPack5(a: W32, b: W32, c: W32, d: W32, e: W32, a': W32, b': W32, c': W32, d': W32, e': W32)
    ensures AddLanes(
      ((a as bv256) << 160) | ((b as bv256) << 120) | ((c as bv256) << 80) | ((d as bv256) << 40) | (e as bv256),
      ((a' as bv256) << 160) | ((b' as bv256) << 120) | ((c' as bv256) << 80) | ((d' as bv256) << 40) | (e' as bv256))
      == Pack5(a + a', b + b', c + c', d + d', e + e')
  {
    hide AddLanes, Pack5;
    AddLanesTerms(a, b, c, d, e, a', b', c', d', e');
    Pack5Terms(a + a', b + b', c + c', d + d', e + e');
  }

  lemma AddLanesOfTerms(a: W32, b: W32, c: W32, d: W32, e: W32, a': W32, b': W32, c': W32, d': W32, e': W32)
    ensures AddLanes(Pack5(a, b, c, d, e), Pack5(a', b', c', d', e')) == Pack5(a + a', b + b', c + c', d + d', e + e')
  {
    hide AddLanes, Pack5;
    Pack5Terms(a, b, c, d, e);
    Pack5Terms(a', b', c', d', e');
    AddLanesIsPack5(a, b, c, d, e, a', b', c', d', e');
  }

  lemma PlusDef(x: W32, y: W32)
    ensures Plus(x, y) == x + y
  {
  }

  lemma AddLanesOfPack5(a: W32, b: W32, c: W32, d: W32, e: W32, a': W32, b': W32, c': W32, d': W32, e': W32)
    ensures AddLanes(Pack5(a, b, c, d, e), Pack5(a', b', c', d', e')) ==
      Pack5(Plus(a, a'), Plus(b, b'), Plus(c, c'), Plus(d, d'), Plus(e, e'))
  {
    hide AddLanes, Pack5, Plus;
    AddLanesOfTerms(a, b, c, d, e, a', b', c', d', e');
    PlusDef(a, a');
    PlusDef(b, b');
    PlusDef(c, c');
    PlusDef(d, d');
    PlusDef(e, e');
  }

  /** The carries of the five additions stay in the gaps between the lanes, where the mask drops them. */
  lemma AddLanesIsPlus(s: State, t: State)
    ensures AddLanes(Pack(s), Pack(t)) == Pack(PlusState(s, t))
  {
    hide AddLanes, Pack5, Plus;
    AddLanesOfPack5(s.a, s.b, s.c, s.d, s.e, t.a, t.b, t.c, t.d, t.e);
  }

  /** Squeezes the gaps out, left-aligned in a 32-byte word as a `bytes20` is. */
  function PackedDigest(h: bv256): bv256 {
    (((((h / 0x100000000) & 0xFFFFFFFF00000000000000000000000000000000) |
       ((h / 0x1000000) & 0xFFFFFFFF000000000000000000000000)) |
       ((h / 0x10000) & 0xFFFFFFFF0000000000000000)) |
       ((h / 0x100) & 0xFFFFFFFF00000000) |
       (h & 0xFFFFFFFF)) * 0x1000000000000000000000000
  }

  lemma DigestOfPack5(a: W32, b: W32, c: W32, d: W32, e: W32)
    ensures Split(PackedDigest(Pack5(a, b, c, d, e))) == Octet(a, b, c, d, e, 0, 0, 0)
  {
  }

  lemma PackedDigestIsState(s: State)
    ensures Split(PackedDigest(Pack(s))) == Octet(s.a, s.b, s.c, s.d, s.e, 0, 0, 0)
  {
    hide Split, PackedDigest, Pack5;
    DigestOfPack5(s.a, s.b, s.c, s.d, s.e);
  }
}
