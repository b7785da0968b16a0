/** The account record kept in the state trie and its 192-byte form, with the default account
    standing for the absent one. */
module AccountCodec {
  import opened Words
  import opened Nodes

  datatype Account = Account(nonce: U64, balance: Word, root: Word, mimcCodeHash: Word,
                             keccakCodeHash: Word, codeSize: Word)

  /** Keccak-256, of which nothing is assumed. */
  type Keccak = Bytes -> Word

  /** The code hashes of the default account are the trie hash of 32 zero bytes and the Keccak hash of none. */
  function Default(h: Hash, keccak: Keccak): Account {
    Account(0, 0, 0, h(Be32(0)), keccak([]), 0)
  }

  function Encode(h: Hash, keccak: Keccak, a: Account): Bytes {
    if a == Default(h, keccak) then []
    else
      Be32(a.nonce) + Be32(a.balance) + Be32(a.root) + Be32(a.mimcCodeHash)
      + Be32(a.keccakCodeHash) + Be32(a.codeSize)
  }

  /** Slicing past the end and narrowing too large a nonce panic. */
  function Decode(h: Hash, keccak: Keccak, buf: Bytes): Result<Account, Error> {
    if |buf| == 0 then Success(Default(h, keccak))
    else if |buf| < 192 || ToWord(buf[..32]) >= TWO_TO_64 then Failure(Panic)
    else Success(Account(ToWord(buf[..32]), ToWord(buf[32..64]), ToWord(buf[64..96]),
                         ToWord(buf[96..128]), ToWord(buf[128..160]), ToWord(buf[160..192])))
  }

  lemma SixWords(b: Bytes, x0: Bytes, x1: Bytes, x2: Bytes, x3: Bytes, x4: Bytes, x5: Bytes)
    requires |x0| == |x1| == |x2| == |x3| == |x4| == |x5| == 32
    requires b == x0 + x1 + x2 + x3 + x4 + x5
    ensures b[..32] == x0 && b[32..64] == x1 && b[64..96] == x2
    ensures b[96..128] == x3 && b[128..160] == x4 && b[160..192] == x5
  {
  }

  /** No bytes are an account nobody touched: nothing in it but the code hashes of empty code. */
  lemma AbsentAccount(h: Hash, keccak: Keccak)
    ensures var r := Decode(h, keccak, []);
            && r.Success? && r.value.nonce == 0 && r.value.balance == 0 && r.value.root == 0 && r.value.codeSize == 0
            && r.value.mimcCodeHash == h(Zeros(32)) && r.value.keccakCodeHash == keccak([])
            && Encode(h, keccak, r.value) == []
  {
    hide Zeros;
    SmallWord(0);
    assert Zeros(31) + [0] == Zeros(32) by { ZeroEnds(31); }
  }

  lemma ZeroEnds(n: nat)
    ensures Zeros(n) + [0] == Zeros(n + 1)
  {
  }

  /** Where each field lies, as a number. */
  lemma AccountLayout(h: Hash, keccak: Keccak, a: Account)
    requires a != Default(h, keccak)
    ensures var b := Encode(h, keccak, a);
            && |b| == 192 && FromBe(b[..32]) == a.nonce && FromBe(b[32..64]) == a.balance
            && FromBe(b[64..96]) == a.root && FromBe(b[96..128]) == a.mimcCodeHash
            && FromBe(b[128..160]) == a.keccakCodeHash && FromBe(b[160..]) == a.codeSize
  {
    hide FromBe, Be32;
    SixWords(Encode(h, keccak, a), Be32(a.nonce), Be32(a.balance), Be32(a.root), Be32(a.mimcCodeHash),
      Be32(a.keccakCodeHash), Be32(a.codeSize));
    Be32RoundTrip(a.nonce);
    Be32RoundTrip(a.balance);
    Be32RoundTrip(a.root);
    Be32RoundTrip(a.mimcCodeHash);
    Be32RoundTrip(a.keccakCodeHash);
    Be32RoundTrip(a.codeSize);
  }

  /** Decoding undoes encoding, for every account; the default one travels as no bytes at all. */
  lemma AccountRoundTrip(h: Hash, keccak: Keccak, a: Account)
    ensures Decode(h, keccak, Encode(h, keccak, a)) == Success(a)
    ensures Encode(h, keccak, a) == [] <==> a == Default(h, keccak)
    ensures |Encode(h, keccak, a)| == 0 || |Encode(h, keccak, a)| == 192
  {
    if a != Default(h, keccak) {
      SixWords(Encode(h, keccak, a), Be32(a.nonce), Be32(a.balance), Be32(a.root), Be32(a.mimcCodeHash),
        Be32(a.keccakCodeHash), Be32(a.codeSize));
      ToWordOfBe32(a.nonce);
      ToWordOfBe32(a.balance);
      ToWordOfBe32(a.root);
      ToWordOfBe32(a.mimcCodeHash);
      ToWordOfBe32(a.keccakCodeHash);
      ToWordOfBe32(a.codeSize);
    }
  }

  /** Encoding undoes decoding on exactly the canonical forms: no bytes, or 192 bytes that are not a
      spelled-out default account. */
  lemma EncodeOfDecodeIff(h: Hash, keccak: Keccak, buf: Bytes)
    requires Decode(h, keccak, buf).Success?
    ensures Encode(h, keccak, Decode(h, keccak, buf).value) == buf
       <==> buf == [] || (|buf| == 192 && Decode(h, keccak, buf).value != Default(h, keccak))
  {
    hide ToWord, Be32;
    var a := Decode(h, keccak, buf).value;
    AccountRoundTrip(h, keccak, a);
    if |buf| == 192 {
      assert buf == buf[..32] + buf[32..64] + buf[64..96] + buf[96..128] + buf[128..160] + buf[160..192];
    }
  }

  /** Fills a zeroed buffer field by field at a moving offset. */
  method EncodeInto(h: Hash, keccak: Keccak, a: Account) returns (r: Bytes)
    ensures r == Encode(h, keccak, a)
  {
    hide Be32;
    if a == Default(h, keccak) {
      return [];
    }
    var fields: seq<Word> := [a.nonce, a.balance, a.root, a.mimcCodeHash, a.keccakCodeHash, a.codeSize];
    var buf := new Byte[192](_ => 0);
    var off := 0;
    ghost var done: Bytes := [];
    for k := 0 to 6
      invariant off == 32 * k && |done| == off && buf[..off] == done
      invariant done == Joined(fields[..k])
    {
      var word := Be32(fields[k]);
      forall j | 0 <= j < 32 {
        buf[off + j] := word[j];
      }
      assert buf[..off + 32] == done + word;
      assert fields[..k + 1][..k] == fields[..k];
      done := done + word;
      off := off + 32;
    }
    JoinedSix(fields);
    assert fields[..6] == fields;
    return buf[..];
  }

  function Joined(ws: seq<Word>): Bytes {
    if ws == [] then [] else Joined(ws[..|ws| - 1]) + Be32(ws[|ws| - 1])
  }

  lemma JoinedSix(ws: seq<Word>)
    requires |ws| == 6
    ensures Joined(ws) == Be32(ws[0]) + Be32(ws[1]) + Be32(ws[2]) + Be32(ws[3]) + Be32(ws[4]) + Be32(ws[5])
  {
    assert Joined(ws[..0]) == [];
    forall k | 0 < k <= 6
      ensures Joined(ws[..k]) == Joined(ws[..k - 1]) + Be32(ws[k - 1])
    {
      assert ws[..k][..k - 1] == ws[..k - 1];
    }
    assert ws[..6] == ws;
  }
}
