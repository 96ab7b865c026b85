/**
 * PBKDF2 key derivation (Sources/PBKDF2.swift), as section 5.2 of RFC 8018
 * defines it: a derived key is the first dkLen octets of T_1 || ... || T_l,
 * where T_i = U_1 xor ... xor U_c, U_1 = PRF(P, S || INT(i)) and
 * U_j = PRF(P, U_{j-1}), with PRF the HMAC of the chosen digest.
 *
 * The keyed hash is a collaborator: it enters as the `Hmac` value, about
 * which the model knows only that every digest has a positive length and
 * every MAC is exactly that long.
 */
module KeyDerivation {
  import opened Wrappers

  /** 2^32: INT(i) holds a block index modulo this. */
  const TwoTo32: nat := 0x1_0000_0000

  /**
   * The digest selector of the OpenSSL binding (`Hash.Function`). Its case
   * list is assumed: Sources/PBKDF2.swift names only `.sha256`, and nothing
   * here depends on the cases because `digestLength` is a parameter.
   */
  datatype HashFunction = MD5 | SHA1 | SHA224 | SHA256 | SHA384 | SHA512

  /** The OpenSSL collaborator: `Hash.hmac(_:key:message:)` and `Hash.Function.digestLength`. */
  datatype Hmac = Hmac(mac: (HashFunction, Bytes, Bytes) -> Bytes, digestLength: HashFunction -> nat)
  {
    /** Every digest has a positive length hLen, and every MAC is exactly hLen octets. */
    ghost predicate Valid()
    {
      && (forall h :: digestLength(h) > 0)
      && (forall h, key, message :: |mac(h, key, message)| == digestLength(h))
    }
  }

  /** `PBKDF2Error`. */
  datatype Pbkdf2Error = InvalidInput | DerivedKeyTooLong

  /** The `PBKDF2` struct: the validated parameters of one derivation. */
  datatype Pbkdf2 = Pbkdf2(
    dkLen: int,
    password: Bytes,
    salt: Bytes,
    iterations: nat,
    numBlocks: nat,
    hashType: HashFunction)
  {
    /** What a successful `init` establishes about the stored fields. */
    ghost predicate WellFormed(hm: Hmac)
    {
      && hm.Valid()
      && iterations >= 1
      && password != []
      && salt != []
      && dkLen >= 1
      && dkLen <= (TwoTo32 - 1) * hm.digestLength(hashType)
      && numBlocks == NumBlocks(dkLen, hm.digestLength(hashType))
    }
  }

  // ---------------------------------------------------------------------------
  // INT(i): the block index as four big-endian octets (`UInt.buffer`)
  // ---------------------------------------------------------------------------

  /** Octet `(i >> s) & 0xFF` of i, for d = 2^s. */
  function Octet(i: nat, d: nat): Byte
    requires d > 0
  {
    ((i / d) % 256) as Byte
  }

  /**
   * INT(i) of RFC 8018 (`UInt.buffer`): four octets, most significant first,
   * that denote i modulo 2^32, so every i < 2^32 round-trips.
   */
  function Be32(i: nat): (r: Bytes)
    ensures |r| == 4 && BigEndianValue(r) == i % TwoTo32
  {
    ByteOfResidue(i, 1);
    ByteOfResidue(i, 0x100);
    ByteOfResidue(i, 0x1_0000);
    ByteOfResidue(i, 0x100_0000);
    DecodeBelow(i % TwoTo32);
    [Octet(i, 0x100_0000), Octet(i, 0x1_0000), Octet(i, 0x100), Octet(i, 1)]
  }

  /** The unsigned integer that four octets denote, most significant first. */
  function BigEndianValue(b: Bytes): (v: nat)
    requires |b| == 4
    ensures v < TwoTo32
  {
    b[0] as nat * 0x100_0000 + b[1] as nat * 0x1_0000 + b[2] as nat * 0x100 + b[3] as nat
  }

  /** `UInt.buffer`: fills a zeroed four-octet array by index. */
  method BlockIndexBuffer(i: nat) returns (b: Bytes)
    ensures |b| == 4 && BigEndianValue(b) == i % TwoTo32
    ensures b == Be32(i)
  {
    var inti := new Byte[4](_ => 0);
    inti[0] := Octet(i, 0x100_0000);
    inti[1] := Octet(i, 0x1_0000);
    inti[2] := Octet(i, 0x100);
    inti[3] := Octet(i, 1);
    b := inti[..];
    assert b == Be32(i);
  }

  /** Distinct block indices below 2^32 get distinct encodings. */
  lemma Be32Injective(i: nat, j: nat)
    requires i < TwoTo32 && j < TwoTo32 && Be32(i) == Be32(j)
    ensures i == j
  {
    DivUnique(i, TwoTo32, 0, i);
    DivUnique(j, TwoTo32, 0, j);
    assert BigEndianValue(Be32(i)) == BigEndianValue(Be32(j));
  }

  /** Each octet of INT(i) depends only on i modulo 2^32 (the shift-and-mask drops higher bits). */
  lemma ByteOfResidue(i: nat, d: nat)
    requires d == 1 || d == 0x100 || d == 0x1_0000 || d == 0x100_0000
    ensures (i / d) % 256 == (i % TwoTo32 / d) % 256
  {
    var m := i % TwoTo32;
    var q := i / TwoTo32;
    var e := TwoTo32 / d;
    assert d * e == TwoTo32;
    assert i == d * (q * e + m / d) + m % d by {
      assert m == d * (m / d) + m % d;
    }
    DivUnique(i, d, q * e + m / d, m % d);
    assert e % 256 == 0;
    DivUnique(q * e + m / d, 256, q * (e / 256) + (m / d) / 256, (m / d) % 256);
  }

  lemma DecodeBelow(m: nat)
    requires m < TwoTo32
    ensures BigEndianValue([Octet(m, 0x100_0000), Octet(m, 0x1_0000), Octet(m, 0x100), Octet(m, 1)]) == m
  {
    var a, r1 := m / 0x100_0000, m % 0x100_0000;
    var b, r2 := r1 / 0x1_0000, r1 % 0x1_0000;
    var c, e := r2 / 0x100, r2 % 0x100;
    assert m == 0x100_0000 * a + 0x1_0000 * b + 0x100 * c + e;
    DivUnique(m, 0x1_0000, 0x100 * a + b, 0x100 * c + e);
    DivUnique(0x100 * a + b, 0x100, a, b);
    DivUnique(m, 0x100, 0x1_0000 * a + 0x100 * b + c, e);
    DivUnique(0x1_0000 * a + 0x100 * b + c, 0x100, 0x100 * a + b, c);
    assert [Octet(m, 0x100_0000), Octet(m, 0x1_0000), Octet(m, 0x100), Octet(m, 1)]
        == [a as Byte, b as Byte, c as Byte, e as Byte];
  }

  // ---------------------------------------------------------------------------
  // Validation and block count (`PBKDF2.init`)
  // ---------------------------------------------------------------------------

  /** ceil(dkLen / hLen), computed exactly: the least n with dkLen <= n * hLen. */
  function NumBlocks(dkLen: nat, hLen: nat): (n: nat)
    requires hLen > 0
    ensures dkLen <= n * hLen < dkLen + hLen
  {
    var x := dkLen + hLen - 1;
    assert x == hLen * (x / hLen) + x % hLen;
    x / hLen
  }

  /** With the RFC's bound dkLen <= (2^32 - 1) * hLen, every block index fits INT(i). */
  lemma NumBlocksFitsCounter(dkLen: nat, hLen: nat)
    requires hLen > 0 && dkLen <= (TwoTo32 - 1) * hLen
    ensures NumBlocks(dkLen, hLen) < TwoTo32
  {
  }

  /**
   * `keyLength ?? hashType.digestLength`: an explicit length is taken as given,
   * even when it is not positive; without one the key is one digest long.
   */
  function KeyLength(keyLength: Option<int>, hashType: HashFunction, hm: Hmac): (r: int)
    requires hm.Valid()
    ensures keyLength.Some? ==> r == keyLength.value
    ensures keyLength.None? ==> r == hm.digestLength(hashType) >= 1
  {
    if keyLength.Some? then keyLength.value else hm.digestLength(hashType)
  }

  /**
   * `PBKDF2.init`: rejects a non-positive iteration count, an empty password or
   * an empty salt with `invalidInput` before anything else, then a key longer
   * than (2^32 - 1) * hLen with `derivedKeyTooLong`. A key length in
   * (-hLen, 0] passes: ceil(dkLen / hLen) is then 0 and so is numBlocks. One
   * of -hLen or less traps in the `UInt` conversion, which the requires rules
   * out.
   */
  function Init(password: Bytes, salt: Bytes, iterations: int, keyLength: Option<int>, hashType: HashFunction, hm: Hmac)
    : (r: Result<Pbkdf2, Pbkdf2Error>)
    requires hm.Valid()
    requires (iterations > 0 && password != [] && salt != []) ==>
      KeyLength(keyLength, hashType, hm) + hm.digestLength(hashType) > 0
    ensures r == Failure(InvalidInput) <==> (iterations <= 0 || password == [] || salt == [])
    ensures r == Failure(DerivedKeyTooLong) <==>
      (iterations > 0 && password != [] && salt != []
       && KeyLength(keyLength, hashType, hm) > (TwoTo32 - 1) * hm.digestLength(hashType))
    ensures r.Success? ==>
      && r.value.dkLen == KeyLength(keyLength, hashType, hm)
      && r.value.password == password && r.value.salt == salt
      && r.value.iterations == iterations && r.value.hashType == hashType
      && (r.value.dkLen >= 1 ==> r.value.WellFormed(hm) && 1 <= r.value.numBlocks < TwoTo32)
      && (r.value.dkLen <= 0 ==> r.value.numBlocks == 0)
  {
    if !(iterations > 0 && password != [] && salt != []) then
      Failure(InvalidInput)
    else
      var dkLen := KeyLength(keyLength, hashType, hm);
      var hLen := hm.digestLength(hashType);
      if dkLen > (TwoTo32 - 1) * hLen then
        Failure(DerivedKeyTooLong)
      else if dkLen <= 0 then
        Success(Pbkdf2(dkLen, password, salt, iterations, 0, hashType))
      else
        NumBlocksFitsCounter(dkLen, hLen);
        Success(Pbkdf2(dkLen, password, salt, iterations, NumBlocks(dkLen, hLen), hashType))
  }

  // ---------------------------------------------------------------------------
  // The function PBKDF2 computes, as RFC 8018 section 5.2 states it
  // ---------------------------------------------------------------------------

  /** Octet-wise exclusive or of two strings of the same length. */
  function Xor(a: Bytes, b: Bytes): (r: Bytes)
    requires |a| == |b|
    ensures |r| == |a|
  {
    seq(|a|, k requires 0 <= k < |a| => XorByte(a[k], b[k]))
  }

  /**
   * U_j of block i for PRF = HMAC with digest h keyed by the password:
   * U_1 = PRF(P, S || INT(i)) and U_j = PRF(P, U_{j-1}).
   */
  function U(hm: Hmac, h: HashFunction, password: Bytes, salt: Bytes, i: nat, j: nat): (r: Bytes)
    requires hm.Valid() && j >= 1
    ensures |r| == hm.digestLength(h)
    decreases j
  {
    if j == 1 then hm.mac(h, password, salt + Be32(i))
    else hm.mac(h, password, U(hm, h, password, salt, i, j - 1))
  }

  /** U_1 xor U_2 xor ... xor U_c for block i. */
  function XorOfRounds(hm: Hmac, h: HashFunction, password: Bytes, salt: Bytes, i: nat, c: nat): (r: Bytes)
    requires hm.Valid() && c >= 1
    ensures |r| == hm.digestLength(h)
    decreases c
  {
    if c == 1 then U(hm, h, password, salt, i, 1)
    else Xor(XorOfRounds(hm, h, password, salt, i, c - 1), U(hm, h, password, salt, i, c))
  }

  /** T_i = F(P, S, c, i): it depends on the digest, password, salt and iteration count only. */
  function Block(p: Pbkdf2, hm: Hmac, i: nat): (r: Bytes)
    requires hm.Valid() && p.iterations >= 1
    ensures |r| == hm.digestLength(p.hashType)
  {
    XorOfRounds(hm, p.hashType, p.password, p.salt, i, p.iterations)
  }

  /** T_1 || T_2 || ... || T_n. */
  function Blocks(p: Pbkdf2, hm: Hmac, n: nat): (r: Bytes)
    requires hm.Valid() && p.iterations >= 1
    ensures |r| == n * hm.digestLength(p.hashType)
    decreases n
  {
    if n == 0 then [] else Blocks(p, hm, n - 1) + Block(p, hm, n)
  }

  /** DK: the first dkLen octets of T_1 || ... || T_l, with l = numBlocks. */
  function DerivedKey(p: Pbkdf2, hm: Hmac): (r: Bytes)
    requires p.WellFormed(hm)
    ensures |r| == p.dkLen
  {
    Blocks(p, hm, p.numBlocks)[..p.dkLen]
  }

  // ---------------------------------------------------------------------------
  // The computation (`calculateBlock`, `calculate`, static `calculate`)
  // ---------------------------------------------------------------------------

  /** The inner loop of `calculateBlock`: `ret[x] = ret[x] ^ u[x]` for every x. */
  method XorInto(ret: array<Byte>, u: Bytes)
    requires ret.Length == |u|
    modifies ret
    ensures ret[..] == Xor(old(ret[..]), u)
  {
    for x := 0 to ret.Length
      invariant forall k :: 0 <= k < x ==> ret[k] == XorByte(old(ret[k]), u[k])
      invariant forall k :: x <= k < ret.Length ==> ret[k] == old(ret[k])
    {
      ret[x] := XorByte(ret[x], u[x]);
    }
  }

  /**
   * `calculateBlock`: builds a fresh message S || INT(blockNum), takes
   * U_1 = HMAC(P, message) into a mutable array, then for each further round
   * replaces u by HMAC(P, u) and xors it into the array in place.
   */
  method CalculateBlock(p: Pbkdf2, hm: Hmac, blockNum: nat) returns (r: Bytes)
    requires hm.Valid() && p.iterations >= 1
    ensures r == Block(p, hm, blockNum)
  {
    var message := p.salt;
    var index := BlockIndexBuffer(blockNum);
    message := message + index;
    var u := hm.mac(p.hashType, p.password, message);
    var ret := new Byte[|u|](k requires 0 <= k < |u| => u[k]);
    assert ret[..] == u;
    if p.iterations > 1 {
      for j := 2 to p.iterations + 1
        invariant u == U(hm, p.hashType, p.password, p.salt, blockNum, j - 1)
        invariant ret[..] == XorOfRounds(hm, p.hashType, p.password, p.salt, blockNum, j - 1)
      {
        u := hm.mac(p.hashType, p.password, u);
        XorInto(ret, u);
      }
    }
    r := ret[..];
  }

  /**
   * `calculate`: appends the blocks for indices 1 ... numBlocks in order and
   * keeps the first dkLen octets.
   */
  method Calculate(p: Pbkdf2, hm: Hmac) returns (r: Bytes)
    requires p.WellFormed(hm)
    ensures r == DerivedKey(p, hm)
  {
    var ret: Bytes := [];
    for i := 1 to p.numBlocks + 1
      invariant ret == Blocks(p, hm, i - 1)
    {
      var value := CalculateBlock(p, hm, i);
      ret := ret + value;
    }
    r := ret[..p.dkLen];
  }

  /**
   * The static `PBKDF2.calculate` entry: validate, then derive. Fails exactly
   * as `Init` does; on success the result is DK and is exactly dkLen octets.
   */
  method Derive(hm: Hmac, password: Bytes, salt: Bytes, iterations: int := 4096,
                keyLength: Option<int> := None, hashType: HashFunction := SHA256)
    returns (r: Result<Bytes, Pbkdf2Error>)
    requires hm.Valid()
    requires (iterations > 0 && password != [] && salt != []) ==>
      (keyLength.Some? ==> keyLength.value >= 1)
    ensures r == Failure(InvalidInput) <==> (iterations <= 0 || password == [] || salt == [])
    ensures r == Failure(DerivedKeyTooLong) <==>
      (iterations > 0 && password != [] && salt != []
       && KeyLength(keyLength, hashType, hm) > (TwoTo32 - 1) * hm.digestLength(hashType))
    ensures r.Success? ==>
      && |r.value| == KeyLength(keyLength, hashType, hm)
      && r.value == DerivedKey(Init(password, salt, iterations, keyLength, hashType, hm).value, hm)
  {
    var init := Init(password, salt, iterations, keyLength, hashType, hm);
    if init.Failure? {
      return Failure(init.error);
    }
    var key := Calculate(init.value, hm);
    return Success(key);
  }

  // ---------------------------------------------------------------------------
  // Properties of the derived key
  // ---------------------------------------------------------------------------

  /** Octet k of T_1 || ... || T_n is octet k mod hLen of block k / hLen + 1. */
  lemma {:induction false} BlocksAt(p: Pbkdf2, hm: Hmac, n: nat, k: nat)
    requires hm.Valid() && p.iterations >= 1
    requires k < n * hm.digestLength(p.hashType)
    ensures var hLen := hm.digestLength(p.hashType);
      Blocks(p, hm, n)[k] == Block(p, hm, k / hLen + 1)[k % hLen]
  {
    var hLen := hm.digestLength(p.hashType);
    assert n * hLen == (n - 1) * hLen + hLen;
    if k < (n - 1) * hLen {
      BlocksAt(p, hm, n - 1, k);
    } else {
      DivUnique(k, hLen, n - 1, k - (n - 1) * hLen);
    }
  }

  /**
   * The derived key is laid out block by block in index order: octet k is
   * octet k mod hLen of T_(k / hLen + 1).
   */
  lemma DerivedKeyLayout(p: Pbkdf2, hm: Hmac, k: nat)
    requires p.WellFormed(hm) && k < p.dkLen
    ensures var hLen := hm.digestLength(p.hashType);
      && k / hLen + 1 <= p.numBlocks
      && DerivedKey(p, hm)[k] == Block(p, hm, k / hLen + 1)[k % hLen]
  {
    var hLen := hm.digestLength(p.hashType);
    BlocksAt(p, hm, p.numBlocks, k);
    QuotientBelow(k, hLen, p.numBlocks);
  }

  /**
   * A shorter key is a prefix of a longer one: two derivations that differ
   * only in dkLen agree on their common octets.
   */
  lemma DerivedKeyPrefix(p: Pbkdf2, q: Pbkdf2, hm: Hmac)
    requires p.WellFormed(hm) && q.WellFormed(hm)
    requires p.password == q.password && p.salt == q.salt
    requires p.iterations == q.iterations && p.hashType == q.hashType
    requires p.dkLen <= q.dkLen
    ensures DerivedKey(p, hm) == DerivedKey(q, hm)[..p.dkLen]
  {
    var short, long := DerivedKey(p, hm), DerivedKey(q, hm);
    var hLen := hm.digestLength(p.hashType);
    forall k | 0 <= k < p.dkLen
      ensures short[k] == long[k]
    {
      DerivedKeyLayout(p, hm, k);
      DerivedKeyLayout(q, hm, k);
    }
    assert short == long[..p.dkLen];
  }

  /**
   * Every block gets its own PRF input: for the indices 1 .. numBlocks of a
   * validated derivation, the messages S || INT(i) are pairwise distinct.
   */
  lemma BlockMessagesDistinct(p: Pbkdf2, hm: Hmac, i: nat, j: nat)
    requires p.WellFormed(hm)
    requires 1 <= i <= p.numBlocks && 1 <= j <= p.numBlocks && i != j
    ensures p.salt + Be32(i) != p.salt + Be32(j)
  {
    NumBlocksFitsCounter(p.dkLen, hm.digestLength(p.hashType));
    if p.salt + Be32(i) == p.salt + Be32(j) {
      assert Be32(i) == (p.salt + Be32(i))[|p.salt|..];
      Be32Injective(i, j);
    }
  }

  /** With a single iteration each block is exactly U_1 = HMAC(P, S || INT(i)). */
  lemma SingleIterationBlock(p: Pbkdf2, hm: Hmac, i: nat)
    requires hm.Valid() && p.iterations == 1
    ensures Block(p, hm, i) == hm.mac(p.hashType, p.password, p.salt + Be32(i))
  {
  }

  // ---------------------------------------------------------------------------
  // Integer helpers
  // ---------------------------------------------------------------------------

  lemma MulBelow(d: int, k: int)
    requires d > 0 && -d < d * k < d
    ensures k == 0
  {
  }

  /** k < n * d implies k / d < n. */
  lemma QuotientBelow(k: nat, d: nat, n: nat)
    requires d > 0 && k < n * d
    ensures k / d < n
  {
  }

  /** Euclidean division is unique: a quotient and remainder that fit are the ones `/` and `%` give. */
  lemma DivUnique(x: int, d: int, q: int, r: int)
    requires d > 0 && 0 <= r < d && x == d * q + r
    ensures x / d == q && x % d == r
  {
    assert x == d * (x / d) + x % d;
    assert d * (q - x / d) == x % d - r;
    MulBelow(d, q - x / d);
  }
}
