/** Navigating DER: printing a tree of definite-length TLV nodes (section 8.1.3 of ITU-T X.690) and then
    walking it with packed node pointers reaches every node with its exact bytes. */
module Der {
  import opened Words
  import opened ByteCopy

  const TWO_TO_80: nat := 0x1_0000_0000_0000_0000_0000

  // ----- packed pointers: first byte, first content byte, last content byte -----

  /** Three 80-bit fields side by side; `or` of disjoint fields is a sum. */
  function GetPtr(s: nat, f: nat, l: nat): nat {
    s + TWO_TO_80 * (f + TWO_TO_80 * l)
  }

  function Ixs(ptr: nat): nat {
    ptr % TWO_TO_80
  }

  function Ixf(ptr: nat): nat {
    ptr / TWO_TO_80 % TWO_TO_80
  }

  function Ixl(ptr: nat): nat {
    ptr / TWO_TO_80 / TWO_TO_80 % TWO_TO_80
  }

  lemma Unpack(s: nat, f: nat, l: nat)
    requires s < TWO_TO_80 && f < TWO_TO_80 && l < TWO_TO_80
    ensures Ixs(GetPtr(s, f, l)) == s && Ixf(GetPtr(s, f, l)) == f && Ixl(GetPtr(s, f, l)) == l
  {
    var rest := f + TWO_TO_80 * l;
    ModUnique(GetPtr(s, f, l), TWO_TO_80, rest, s);
    ModUnique(rest, TWO_TO_80, l, f);
    ModUnique(l, TWO_TO_80, 0, l);
  }

  lemma FieldWidth()
    ensures Pow256(10) == TWO_TO_80
  {
  }

  // ----- the reader -----

  /** A byte string in memory is shorter than 2^64. */
  type DerBytes = b: Bytes | |b| < TWO_TO_64

  /** The length in its n length bytes. None is a revert: out of bounds, more than 32 bytes, or n = 0
      (the indefinite form), where the shift (32 - n) * 8 overflows eight bits. */
  function LongLength(der: DerBytes, at: nat, n: nat): Option<nat> {
    if n == 1 then if at < |der| then Some(der[at]) else None
    else if n == 2 then if at + 2 <= |der| then Some((der[at] as int) * 256 + der[at + 1]) else None
    else if n > 32 || at + n > |der| || n == 0 then None
    else Some(FromBe(der[at..at + n]))
  }

  function ReadNodeLength(der: DerBytes, ix: nat): Option<nat> {
    if ix + 1 >= |der| then None
    else if der[ix + 1] < 128 then
      Some(GetPtr(ix, ix + 2, (ix + 2 + der[ix + 1] - 1) % TWO_TO_80))
    else
      var n := der[ix + 1] - 128;
      match LongLength(der, ix + 2, n)
      case None => None
      case Some(length) =>
        var first := (ix + 2 + n) % TWO_TO_80;
        if first + length >= TWO_TO_256 || first + length == 0 then None
        else Some(GetPtr(ix, first, (first + length - 1) % TWO_TO_80))
  }

  function Root(der: DerBytes): Option<nat> {
    ReadNodeLength(der, 0)
  }

  function FirstChildOf(der: DerBytes, ptr: nat): Option<nat> {
    if Ixs(ptr) >= |der| || (der[Ixs(ptr)] / 32) % 2 == 0 then None
    else ReadNodeLength(der, Ixf(ptr))
  }

  function NextSiblingOf(der: DerBytes, ptr: nat): Option<nat> {
    ReadNodeLength(der, Ixl(ptr) + 1)
  }

  /** `substring`, by its contract; None when the checked subtraction or the range check reverts. */
  function Slice(der: DerBytes, from: nat, last: nat): Option<Bytes> {
    if from <= last + 1 <= |der| then Some(der[from..last + 1]) else None
  }

  function BytesAt(der: DerBytes, ptr: nat): Option<Bytes> {
    Slice(der, Ixf(ptr), Ixl(ptr))
  }

  function AllBytesAt(der: DerBytes, ptr: nat): Option<Bytes> {
    Slice(der, Ixs(ptr), Ixl(ptr))
  }

  /** The unsigned value of a short INTEGER node. */
  function UintAt(der: DerBytes, ptr: nat): Option<nat> {
    var s, f, end := Ixs(ptr), Ixf(ptr), Ixl(ptr) + 1;
    if s >= |der| || der[s] != 2 || f >= |der| || der[f] >= 128 || end < f then None
    else if end - f > 32 || end > |der| then None
    else Some(FromBe(der[f..end]))
  }

  /** Each way of reading the length bytes is the word-level read of memory that the source makes. */
  lemma LongLengthIsRead(m: Bytes, self: nat, der: DerBytes, at: nat, n: nat)
    requires HoldsBytes(m, self, der) && self + 64 + |der| <= |m|
    ensures n == 2 ==> LongLength(der, at, n) == ReadUint16(m, self, der, at)
    ensures n > 2 ==>
      match ReadBytesN(m, self, der, at, n)
      case None => LongLength(der, at, n) == None
      case Some(x) => n <= 32 && LongLength(der, at, n) == Some(x / Pow256(32 - n))
  {
    hide FromBe, ReadUint16, ReadBytesN, HoldsBytes;
    ReadUint16Reads(m, self, der, at);
    ReadBytesNReads(m, self, der, at, n);
  }

  /** Whichever branch reads it, the length is the big-endian number of 1 to 32 bytes. */
  lemma LongLengthUniform(der: DerBytes, at: nat, n: nat)
    ensures LongLength(der, at, n) ==
      if 1 <= n <= 32 && at + n <= |der| then Some(FromBe(der[at..at + n])) else None
  {
    hide FromBe;
    if n == 1 && at + 1 <= |der| {
      OneByte(der[at..at + 1]);
    } else if n == 2 && at + 2 <= |der| {
      TwoBytes(der[at..at + 2]);
    }
  }

  lemma OneByte(b: Bytes)
    requires |b| == 1
    ensures FromBe(b) == b[0]
  {
    assert b[..|b| - 1] == [];
  }

  // ----- the printer -----

  /** A node with its tag byte, the number of its length bytes (0 for the short form), and its content. */
  datatype Tlv =
    | Primitive(tag: Byte, form: nat, content: Bytes)
    | Constructed(tag: Byte, form: nat, kids: seq<Tlv>)

  function LengthBytes(form: nat, n: nat): Bytes {
    if form == 0 then [n % 128] else [128 + form % 128] + Be(n, form)
  }

  function Print(t: Tlv): Bytes
    decreases t, 1
  {
    [t.tag] + LengthBytes(t.form, |Body(t)|) + Body(t)
  }

  function Body(t: Tlv): Bytes
    decreases t, 0
  {
    match t
    case Primitive(_, _, content) => content
    case Constructed(_, _, kids) => PrintAll(kids)
  }

  function PrintAll(ts: seq<Tlv>): Bytes {
    if ts == [] then [] else Print(ts[0]) + PrintAll(ts[1..])
  }

  /** Definite lengths: short below 128, or 1 to 32 length bytes, leading zeros allowed. */
  predicate LengthFits(form: nat, n: nat) {
    if form == 0 then n < 128 else form <= 32 && n < Pow256(form)
  }

  predicate WellFormed(t: Tlv) {
    && LengthFits(t.form, |Body(t)|)
    && (t.Constructed? ==> (t.tag / 32) % 2 == 1 && forall i :: 0 <= i < |t.kids| ==> WellFormed(t.kids[i]))
  }

  function Header(t: Tlv): nat {
    1 + |LengthBytes(t.form, |Body(t)|)|
  }

  /** The pointer to a node printed from byte `at` on. */
  function PtrOf(t: Tlv, at: nat): nat {
    GetPtr(at, at + Header(t), at + |Print(t)| - 1)
  }

  ghost predicate PrintedAt(der: DerBytes, at: nat, t: Tlv) {
    at + |Print(t)| <= |der| && der[at..at + |Print(t)|] == Print(t)
  }

  lemma PrintParts(der: DerBytes, at: nat, t: Tlv)
    requires PrintedAt(der, at, t)
    ensures |Print(t)| == Header(t) + |Body(t)|
    ensures der[at] == t.tag
    ensures der[at + 1..at + Header(t)] == LengthBytes(t.form, |Body(t)|)
    ensures der[at + Header(t)..at + |Print(t)|] == Body(t)
  {
    hide Body, LengthBytes;
    var p, n, b := Print(t), LengthBytes(t.form, |Body(t)|), Body(t);
    assert p == [t.tag] + n + b;
    assert p[0] == t.tag && p[1..Header(t)] == n && p[Header(t)..] == b;
    assert der[at] == der[at..at + |p|][0];
    SliceOfSlice(der, at, at + |p|, 1, Header(t));
    SliceOfSlice(der, at, at + |p|, Header(t), |p|);
  }

  lemma PtrFields(der: DerBytes, at: nat, t: Tlv)
    requires PrintedAt(der, at, t)
    ensures Ixs(PtrOf(t, at)) == at && Ixf(PtrOf(t, at)) == at + Header(t)
    ensures Ixl(PtrOf(t, at)) == at + |Print(t)| - 1
  {
    PrintParts(der, at, t);
    Unpack(at, at + Header(t), at + |Print(t)| - 1);
  }

  lemma ReadsShort(der: DerBytes, ix: nat, size: nat)
    requires ix + 2 <= |der| && der[ix + 1] == size % 128 && size < 128
    ensures ReadNodeLength(der, ix) == Some(GetPtr(ix, ix + 2, ix + 2 + size - 1))
  {
    hide GetPtr, LongLength;
    ModUnique(size, 128, 0, size);
    ModUnique(ix + 2 + size - 1, TWO_TO_80, 0, ix + 2 + size - 1);
  }

  lemma ReadsLong(der: DerBytes, ix: nat, form: nat, size: nat)
    requires 0 < form && LengthFits(form, size) && ix + 2 + form <= |der| && ix + 2 + form + size < TWO_TO_64
    requires der[ix + 1] == 128 + form % 128 && der[ix + 2..ix + 2 + form] == Be(size, form)
    ensures ReadNodeLength(der, ix) == Some(GetPtr(ix, ix + 2 + form, ix + 2 + form + size - 1))
  {
    hide GetPtr, LongLength, FromBe, Be, Pow256;
    var first := ix + 2 + form;
    ModUnique(form, 128, 0, form);
    FromBeOfBe(size, form);
    ModUnique(size, Pow256(form), 0, size);
    LongLengthUniform(der, ix + 2, form);
    ModUnique(first, TWO_TO_80, 0, first);
    ModUnique(first + size - 1, TWO_TO_80, 0, first + size - 1);
  }

  /** Reading a node where one is printed yields the pointer to it, for every length form. */
  lemma ReadsPrinted(der: DerBytes, at: nat, t: Tlv)
    requires PrintedAt(der, at, t) && LengthFits(t.form, |Body(t)|)
    ensures ReadNodeLength(der, at) == Some(PtrOf(t, at))
  {
    hide Body, FromBe, Be, GetPtr, ReadNodeLength, Print, Pow256;
    PrintParts(der, at, t);
    var n := der[at + 1..at + Header(t)];
    assert der[at + 1] == n[0];
    if t.form == 0 {
      ReadsShort(der, at, |Body(t)|);
    } else {
      assert der[at + 2..at + 2 + t.form] == n[1..];
      ReadsLong(der, at, t.form, |Body(t)|);
    }
  }

  /** The indefinite form reverts. */
  lemma IndefiniteReverts(der: DerBytes, ix: nat)
    requires ix + 1 < |der| && der[ix + 1] == 128
    ensures ReadNodeLength(der, ix) == None
  {
  }

  /** The header alone decides the pointer. */
  lemma ReadsHeader(der: DerBytes, t: Tlv)
    requires Header(t) <= |der| && |Print(t)| < TWO_TO_64 && der[..Header(t)] == Print(t)[..Header(t)]
    requires LengthFits(t.form, |Body(t)|)
    ensures ReadNodeLength(der, 0) == Some(PtrOf(t, 0))
  {
    hide Body, FromBe, Be, GetPtr, ReadNodeLength, Pow256;
    var p, n := Print(t), LengthBytes(t.form, |Body(t)|);
    assert p[..Header(t)] == [t.tag] + n && |p| == Header(t) + |Body(t)|;
    assert der[1] == der[..Header(t)][1] == n[0];
    if t.form == 0 {
      ReadsShort(der, 0, |Body(t)|);
    } else {
      assert der[2..2 + t.form] == der[..Header(t)][2..] == n[1..];
      ReadsLong(der, 0, t.form, |Body(t)|);
    }
  }

  /** Of a node cut short after its header there is still a pointer, and no bytes: both reads revert. */
  lemma CutShortReverts(t: Tlv, n: nat)
    requires LengthFits(t.form, |Body(t)|) && Header(t) <= n < |Print(t)| < TWO_TO_64
    ensures
      var der := Print(t)[..n];
      Root(der) == Some(PtrOf(t, 0)) && BytesAt(der, PtrOf(t, 0)) == None && AllBytesAt(der, PtrOf(t, 0)) == None
  {
    hide Body, Print, PtrOf, ReadNodeLength, LengthFits, Ixs, Ixf, Ixl;
    var p: DerBytes := Print(t);
    assert p[..n][..Header(t)] == p[..Header(t)];
    ReadsHeader(p[..n], t);
    assert p[0..0 + |p|] == p;
    PtrFields(p, 0, t);
  }

  /** `bytesAt` and `allBytesAt` return the content and the whole node. */
  lemma BytesOfPrinted(der: DerBytes, at: nat, t: Tlv)
    requires PrintedAt(der, at, t)
    ensures BytesAt(der, PtrOf(t, at)) == Some(Body(t))
    ensures AllBytesAt(der, PtrOf(t, at)) == Some(Print(t))
  {
    hide Body, Print, PtrOf, Ixs, Ixf, Ixl;
    PrintParts(der, at, t);
    PtrFields(der, at, t);
  }

  // ----- children -----

  /** A node whose tag says primitive has no child: the request reverts. */
  lemma PrimitiveHasNoChild(der: DerBytes, at: nat, t: Tlv)
    requires PrintedAt(der, at, t) && (t.tag / 32) % 2 == 0
    ensures FirstChildOf(der, PtrOf(t, at)) == None
  {
    hide Body, Print, PtrOf, ReadNodeLength, Ixs, Ixf, Ixl;
    PrintParts(der, at, t);
    PtrFields(der, at, t);
  }

  /** A constructed node without children has a stray one, its own next sibling. */
  lemma EmptyHasStrayChild(der: DerBytes, at: nat, t: Tlv)
    requires PrintedAt(der, at, t) && WellFormed(t) && t.Constructed? && t.kids == []
    ensures FirstChildOf(der, PtrOf(t, at)) == NextSiblingOf(der, PtrOf(t, at))
  {
    hide Print, PtrOf, ReadNodeLength, Ixs, Ixf, Ixl;
    PrintParts(der, at, t);
    PtrFields(der, at, t);
  }

  lemma {:induction false} PrintAllAppend(a: seq<Tlv>, b: seq<Tlv>)
    ensures PrintAll(a + b) == PrintAll(a) + PrintAll(b)
  {
    hide Print;
    if a == [] {
      assert a + b == b;
    } else {
      assert (a + b)[0] == a[0] && (a + b)[1..] == a[1..] + b;
      PrintAllAppend(a[1..], b);
    }
  }

  /** Where the i-th child of a node printed at `at` begins. */
  function KidAt(t: Tlv, at: nat, i: nat): nat
    requires t.Constructed? && i <= |t.kids|
  {
    at + Header(t) + |PrintAll(t.kids[..i])|
  }

  lemma PrintOne(t: Tlv)
    ensures PrintAll([t]) == Print(t)
  {
    hide Print;
    var one := [t];
    assert one[1..] == [];
  }

  lemma KidsUpTo(ts: seq<Tlv>, i: nat)
    requires i < |ts|
    ensures PrintAll(ts[..i + 1]) == PrintAll(ts[..i]) + Print(ts[i])
  {
    hide Print, PrintAll;
    var one := [ts[i]];
    PrintOne(ts[i]);
    assert ts[..i + 1] == ts[..i] + one;
    PrintAllAppend(ts[..i], one);
  }

  lemma KidSplit(ts: seq<Tlv>, i: nat)
    requires i < |ts|
    ensures PrintAll(ts) == PrintAll(ts[..i]) + Print(ts[i]) + PrintAll(ts[i + 1..])
    ensures PrintAll(ts[..i + 1]) == PrintAll(ts[..i]) + Print(ts[i])
  {
    hide Print, PrintAll;
    var front, back := ts[..i + 1], ts[i + 1..];
    KidsUpTo(ts, i);
    assert ts == front + back;
    PrintAllAppend(front, back);
  }

  lemma KidPrinted(der: DerBytes, at: nat, t: Tlv, i: nat)
    requires PrintedAt(der, at, t) && t.Constructed? && i < |t.kids|
    ensures PrintedAt(der, KidAt(t, at, i), t.kids[i])
    ensures KidAt(t, at, i + 1) == KidAt(t, at, i) + |Print(t.kids[i])|
  {
    hide Print, PrintAll;
    PrintParts(der, at, t);
    var f, all := at + Header(t), PrintAll(t.kids);
    var before, kid := PrintAll(t.kids[..i]), Print(t.kids[i]);
    KidSplit(t.kids, i);
    assert all[|before|..|before| + |kid|] == kid;
    SliceOfSlice(der, f, f + |all|, |before|, |before| + |kid|);
  }

  lemma KidWellFormed(t: Tlv, i: nat)
    requires WellFormed(t) && t.Constructed? && i < |t.kids|
    ensures WellFormed(t.kids[i])
  {
  }

  lemma WellFormedFits(t: Tlv)
    requires WellFormed(t)
    ensures LengthFits(t.form, |Body(t)|)
  {
  }

  /** `firstChildOf` finds the first child of a non-empty constructed node. */
  lemma FirstChild(der: DerBytes, at: nat, t: Tlv)
    requires PrintedAt(der, at, t) && WellFormed(t) && t.Constructed? && t.kids != []
    ensures FirstChildOf(der, PtrOf(t, at)) == Some(PtrOf(t.kids[0], KidAt(t, at, 0)))
  {
    hide Print, PrintAll, PtrOf, ReadNodeLength, LengthFits, PrintedAt, Ixs, Ixf, Ixl, Header;
    assert PrintAll(t.kids[..0]) == [] by { NoKids(t.kids); }
    PrintParts(der, at, t);
    PtrFields(der, at, t);
    KidPrinted(der, at, t, 0);
    KidWellFormed(t, 0);
    WellFormedFits(t.kids[0]);
    TagInside(der, at, t);
    ReadsPrinted(der, KidAt(t, at, 0), t.kids[0]);
  }

  lemma TagInside(der: DerBytes, at: nat, t: Tlv)
    requires PrintedAt(der, at, t)
    ensures at < |der|
  {
  }

  lemma NoKids(ts: seq<Tlv>)
    ensures PrintAll(ts[..0]) == []
  {
  }

  /** `nextSiblingOf` goes from each child to the next. */
  lemma NextSibling(der: DerBytes, at: nat, t: Tlv, i: nat)
    requires PrintedAt(der, at, t) && WellFormed(t) && t.Constructed? && i + 1 < |t.kids|
    ensures NextSiblingOf(der, PtrOf(t.kids[i], KidAt(t, at, i))) == Some(PtrOf(t.kids[i + 1], KidAt(t, at, i + 1)))
  {
    hide Print, PrintAll, PtrOf, ReadNodeLength, LengthFits, PrintedAt, Ixs, Ixf, Ixl, Header, KidAt;
    KidPrinted(der, at, t, i);
    KidPrinted(der, at, t, i + 1);
    PtrFields(der, KidAt(t, at, i), t.kids[i]);
    KidWellFormed(t, i + 1);
    WellFormedFits(t.kids[i + 1]);
    ReadsPrinted(der, KidAt(t, at, i + 1), t.kids[i + 1]);
  }

  /** The last child ends where its parent does: how a caller knows there is no next sibling, which
      `nextSiblingOf` itself does not check. */
  lemma OnlyLastChildEnds(der: DerBytes, at: nat, t: Tlv, i: nat)
    requires PrintedAt(der, at, t) && WellFormed(t) && t.Constructed? && i < |t.kids|
    ensures Ixl(PtrOf(t.kids[i], KidAt(t, at, i))) == Ixl(PtrOf(t, at)) <==> i + 1 == |t.kids|
  {
    hide PrintAll, PtrOf, LengthFits, Ixs, Ixf, Ixl, LengthBytes;
    KidPrinted(der, at, t, i);
    PtrFields(der, at, t);
    PtrFields(der, KidAt(t, at, i), t.kids[i]);
    PrintParts(der, at, t);
    var n := |t.kids|;
    assert t.kids[..n] == t.kids;
    if i + 1 < n {
      assert t.kids == t.kids[..i + 1] + t.kids[i + 1..];
      PrintAllAppend(t.kids[..i + 1], t.kids[i + 1..]);
      KidSplit(t.kids[i + 1..], 0);
    }
  }

  // ----- whole paths -----

  function SkipSiblings(der: DerBytes, ptr: nat, k: nat): Option<nat>
    decreases k, der
  {
    if k == 0 then Some(ptr)
    else
      match SkipSiblings(der, ptr, k - 1)
      case None => None
      case Some(p) => NextSiblingOf(der, p)
  }

  /** First child, then siblings, as the path says, level by level. */
  function Follow(der: DerBytes, ptr: nat, path: seq<nat>): Option<nat>
    decreases |path|, der
  {
    if path == [] then Some(ptr)
    else
      match FirstChildOf(der, ptr)
      case None => None
      case Some(first) =>
        match SkipSiblings(der, first, path[0])
        case None => None
        case Some(p) => Follow(der, p, path[1..])
  }

  predicate HasPath(t: Tlv, path: seq<nat>)
    decreases |path|
  {
    path == [] || (t.Constructed? && path[0] < |t.kids| && HasPath(t.kids[path[0]], path[1..]))
  }

  function NodeAt(t: Tlv, path: seq<nat>): Tlv
    requires HasPath(t, path)
    decreases |path|
  {
    if path == [] then t else NodeAt(t.kids[path[0]], path[1..])
  }

  function PlaceOf(t: Tlv, at: nat, path: seq<nat>): nat
    requires HasPath(t, path)
    decreases |path|
  {
    if path == [] then at else PlaceOf(t.kids[path[0]], KidAt(t, at, path[0]), path[1..])
  }

  lemma {:induction false} SiblingsInOrder(der: DerBytes, at: nat, t: Tlv, k: nat)
    requires PrintedAt(der, at, t) && WellFormed(t) && t.Constructed? && k < |t.kids|
    ensures SkipSiblings(der, PtrOf(t.kids[0], KidAt(t, at, 0)), k) == Some(PtrOf(t.kids[k], KidAt(t, at, k)))
    decreases k
  {
    hide PtrOf, KidAt, WellFormed, PrintedAt, NextSiblingOf;
    if k > 0 {
      SiblingsInOrder(der, at, t, k - 1);
      NextSibling(der, at, t, k - 1);
    }
  }

  lemma {:induction false} FollowReaches(der: DerBytes, at: nat, t: Tlv, path: seq<nat>)
    requires PrintedAt(der, at, t) && WellFormed(t) && HasPath(t, path)
    ensures PrintedAt(der, PlaceOf(t, at, path), NodeAt(t, path))
    ensures Follow(der, PtrOf(t, at), path) == Some(PtrOf(NodeAt(t, path), PlaceOf(t, at, path)))
    decreases |path|
  {
    hide PtrOf, KidAt, WellFormed, PrintedAt, FirstChildOf, SkipSiblings;
    if path != [] {
      var k := path[0];
      FirstChild(der, at, t);
      SiblingsInOrder(der, at, t, k);
      KidPrinted(der, at, t, k);
      KidWellFormed(t, k);
      FollowReaches(der, KidAt(t, at, k), t.kids[k], path[1..]);
    }
  }

  /** Navigation undoes printing: from the root of a printed tree, with anything after it, every path of
      the tree leads to a pointer whose bytes are those of the node at that path. */
  lemma NavigationUndoesPrinting(t: Tlv, after: Bytes, path: seq<nat>)
    requires WellFormed(t) && HasPath(t, path) && |Print(t) + after| < TWO_TO_64
    ensures
      var der := Print(t) + after;
      Root(der).Some? &&
      var ptr := Follow(der, Root(der).value, path);
      ptr.Some? && BytesAt(der, ptr.value) == Some(Body(NodeAt(t, path)))
                && AllBytesAt(der, ptr.value) == Some(Print(NodeAt(t, path)))
  {
    hide PtrOf, WellFormed, PrintedAt, Follow, BytesAt, AllBytesAt, ReadNodeLength, Body, Print, LengthFits;
    var der := Print(t) + after;
    PrintedFirst(t, after);
    WellFormedFits(t);
    ReadsPrinted(der, 0, t);
    FollowReaches(der, 0, t, path);
    BytesOfPrinted(der, PlaceOf(t, 0, path), NodeAt(t, path));
  }

  lemma PrintedFirst(t: Tlv, after: Bytes)
    requires |Print(t) + after| < TWO_TO_64
    ensures PrintedAt(Print(t) + after, 0, t)
  {
  }

  /** `uintAt` accepts exactly the non-negative INTEGERs of 1 to 32 bytes, with their value. An INTEGER
      without content it reads as 0 when the byte after the node is below 128, and there is one. */
  lemma UintOfPrinted(der: DerBytes, at: nat, t: Tlv)
    requires PrintedAt(der, at, t) && t.Primitive?
    ensures t.content != [] ==>
      UintAt(der, PtrOf(t, at)) ==
        if t.tag == 2 && t.content[0] < 128 && |t.content| <= 32 then Some(FromBe(t.content)) else None
    ensures t.content == [] ==>
      var next := at + |Print(t)|;
      UintAt(der, PtrOf(t, at)) == if t.tag == 2 && next < |der| && der[next] < 128 then Some(0) else None
  {
    hide Print, PtrOf, FromBe, Ixs, Ixf, Ixl, LengthBytes;
    PrintParts(der, at, t);
    PtrFields(der, at, t);
    var f := at + Header(t);
    if t.content != [] {
      assert der[f] == der[f..at + |Print(t)|][0];
    } else {
      assert der[f..f] == [];
      EmptyNumber();
    }
  }

  lemma EmptyNumber()
    ensures FromBe([]) == 0
  {
  }
}
