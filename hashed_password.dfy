/**
 * The `HashedPassword` value type (Sources/HashedPassword.swift): a hex hash,
 * the OpenSSL `HashType` that produced it and the salt, serialised as
 * "<hash>$<type>$<salt>". Hashing is HMAC keyed by the salt; this revision
 * does not call PBKDF2.
 *
 * The HMAC, the UTF-8 view of a string (`.data`) and `hexadecimalString()`
 * are collaborators: they enter as the `Crypto` value.
 */
module HashedPasswords {
  import opened Wrappers

  /** The OpenSSL `HashType` cases this file names. */
  datatype HashType = SHA1 | SHA224 | SHA256 | SHA384 | SHA512
  {
    /** `HashType.string`: a non-empty name without '$', so it is one piece of a description. */
    function Name(): (r: string)
      ensures r in HashTypeNames
      ensures r != [] && '$' !in r
    {
      match this
      case SHA1 => "sha1"
      case SHA224 => "sha224"
      case SHA256 => "sha256"
      case SHA384 => "sha384"
      case SHA512 => "sha512"
    }
  }

  /** The digest names `HashType(string:)` accepts. */
  const HashTypeNames: set<string> := {"sha1", "sha224", "sha256", "sha384", "sha512"}

  /** `HashType.init?(string:)`: exact match on the five names, nil otherwise. */
  function HashTypeFromString(s: string): (r: Option<HashType>)
    ensures r.Some? <==> s in HashTypeNames
    ensures r.Some? ==> r.value.Name() == s
  {
    match s
    case "sha1" => Some(SHA1)
    case "sha224" => Some(SHA224)
    case "sha256" => Some(SHA256)
    case "sha384" => Some(SHA384)
    case "sha512" => Some(SHA512)
    case _ => None
  }

  /** Every hash type survives the trip through its name. */
  lemma HashTypeRoundTrip(t: HashType)
    ensures HashTypeFromString(t.Name()) == Some(t)
  {
  }

  /** Distinct hash types have distinct names. */
  lemma HashTypeNameInjective(t: HashType, u: HashType)
    requires t.Name() == u.Name()
    ensures t == u
  {
  }

  // ---------------------------------------------------------------------------
  // ASCII lowercasing (`lowercased()`)
  // ---------------------------------------------------------------------------

  predicate IsUpper(c: char)
  {
    'A' <= c <= 'Z'
  }

  /** A string without upper-case ASCII letters. */
  predicate IsLowercase(s: string)
  {
    forall k :: 0 <= k < |s| ==> !IsUpper(s[k])
  }

  function LowerChar(c: char): char
  {
    if IsUpper(c) then (c as int + 32) as char else c
  }

  /** `lowercased()`: maps 'A'..'Z' to 'a'..'z' and keeps every other character. */
  function Lower(s: string): (r: string)
    ensures |r| == |s| && IsLowercase(r)
    ensures forall k :: 0 <= k < |s| && !IsUpper(s[k]) ==> r[k] == s[k]
    ensures forall k :: 0 <= k < |s| && IsUpper(s[k]) ==> r[k] as int == s[k] as int + 32
  {
    if s == [] then [] else [LowerChar(s[0])] + Lower(s[1..])
  }

  /** A string that is already lower case is left alone. */
  lemma LowerKeepsLowercase(s: string)
    requires IsLowercase(s)
    ensures Lower(s) == s
  {
  }

  /** Lowercasing twice is lowercasing once. */
  lemma LowerIdempotent(s: string)
    ensures Lower(Lower(s)) == Lower(s)
  {
  }

  // ---------------------------------------------------------------------------
  // Hashing with the collaborators
  // ---------------------------------------------------------------------------

  /**
   * The foreign functions this file calls: `Hash.hmac(_:key:message:)`,
   * `String.data`, `hexadecimalString()`, and the digest length of a type.
   */
  datatype Crypto = Crypto(
    hmac: (HashType, Bytes, Bytes) -> Bytes,
    data: string -> Bytes,
    hex: Bytes -> string,
    digestLength: HashType -> nat)
  {
    /** A MAC is as long as its digest; hex writes two characters per octet. */
    ghost predicate Valid()
    {
      && (forall t, key, message :: |hmac(t, key, message)| == digestLength(t))
      && (forall b :: |hex(b)| == 2 * |b|)
    }
  }

  /** `HashType.hash(salt:message:)`: HMAC keyed by the salt, in lower-case hex. */
  function Hash(c: Crypto, t: HashType, salt: string, message: string): (r: string)
    ensures IsLowercase(r)
    ensures c.Valid() ==> |r| == 2 * c.digestLength(t)
  {
    Lower(c.hex(c.hmac(t, c.data(salt), c.data(message))))
  }

  // ---------------------------------------------------------------------------
  // Splitting on '$'
  // ---------------------------------------------------------------------------

  /** The fields joined back with '$' between them. */
  function Join(fields: seq<string>): string
    requires |fields| >= 1
  {
    if |fields| == 1 then fields[0] else fields[0] + "$" + Join(fields[1..])
  }

  /**
   * The maximal '$'-free pieces of s, empty ones included: the inverse of
   * `Join` on fields that hold no '$' (`JoinOfFields`, `FieldsOfJoin`).
   */
  function Fields(s: string): (r: seq<string>)
    ensures |r| >= 1
    ensures forall k :: 0 <= k < |r| ==> '$' !in r[k]
  {
    if s == [] then [""]
    else
      var rest := Fields(s[1..]);
      if s[0] == '$' then [""] + rest
      else [[s[0]] + rest[0]] + rest[1..]
  }

  /** Joining the fields of s with '$' gives s back. */
  lemma {:induction false} JoinOfFields(s: string)
    ensures Join(Fields(s)) == s
    decreases |s|
  {
    if s != [] {
      var rest := Fields(s[1..]);
      JoinOfFields(s[1..]);
      assert s == [s[0]] + s[1..];
      if s[0] == '$' {
        assert Fields(s) == [""] + rest;
        assert Fields(s)[1..] == rest;
      } else {
        var r := [[s[0]] + rest[0]] + rest[1..];
        assert Fields(s) == r;
        if |rest| > 1 {
          assert r[1..] == rest[1..];
          assert Join(r) == r[0] + "$" + Join(rest[1..]);
        }
      }
    }
  }

  /** The non-empty elements of fs, in order (see `NonEmptyAppend`). */
  function NonEmpty(fs: seq<string>): (r: seq<string>)
    ensures forall k :: 0 <= k < |r| ==> r[k] != [] && r[k] in fs
    ensures (forall k :: 0 <= k < |fs| ==> fs[k] != []) ==> r == fs
  {
    if fs == [] then []
    else if fs[0] == [] then NonEmpty(fs[1..])
    else [fs[0]] + NonEmpty(fs[1..])
  }

  /**
   * `split(separator: "$")`, which omits empty pieces: a '$'-free string is
   * one piece (none when it is empty), and `SplitConcat` says how pieces on
   * either side of a '$' combine.
   */
  function Split(s: string): (r: seq<string>)
    ensures forall k :: 0 <= k < |r| ==> r[k] != [] && '$' !in r[k]
    ensures '$' !in s ==> r == (if s == [] then [] else [s])
  {
    assert '$' !in s ==> Fields(s) == [s] by {
      if '$' !in s {
        FieldsOfPiece(s);
      }
    }
    NonEmpty(Fields(s))
  }

  /** Three fields joined. */
  lemma Join3(a: string, b: string, c: string)
    ensures Join([a, b, c]) == a + "$" + b + "$" + c
  {
    assert [a, b, c][1..] == [b, c];
    assert [b, c][1..] == [c];
    assert Join([b, c]) == b + "$" + c;
    assert Join([a, b, c]) == a + "$" + (b + "$" + c);
  }

  /** Prepending '$'-free text a to t extends the first field of t. */
  lemma {:induction false} FieldsPrepend(a: string, t: string)
    requires '$' !in a
    ensures Fields(a + t) == [a + Fields(t)[0]] + Fields(t)[1..]
    decreases |a|
  {
    if a != [] {
      assert (a + t)[1..] == a[1..] + t;
      assert (a + t)[0] == a[0];
      FieldsPrepend(a[1..], t);
      assert [a[0]] + (a[1..] + Fields(t)[0]) == a + Fields(t)[0];
    } else {
      assert a + t == t;
      assert a + Fields(t)[0] == Fields(t)[0];
      assert [Fields(t)[0]] + Fields(t)[1..] == Fields(t);
    }
  }

  /** Splitting the join of '$'-free fields gives the fields back. */
  lemma {:induction false} FieldsOfJoin(fs: seq<string>)
    requires |fs| >= 1
    requires forall k :: 0 <= k < |fs| ==> '$' !in fs[k]
    ensures Fields(Join(fs)) == fs
    decreases |fs|
  {
    if |fs| == 1 {
      FieldsPrepend(fs[0], "");
      assert fs[0] + "" == fs[0];
    } else {
      var t := Join(fs[1..]);
      FieldsOfJoin(fs[1..]);
      var ft := Fields("$" + t);
      assert ft == [""] + Fields(t) by {
        assert ("$" + t)[1..] == t;
      }
      assert ft[0] == "" && ft[1..] == fs[1..];
      FieldsPrepend(fs[0], "$" + t);
      assert Join(fs) == fs[0] + ("$" + t);
      assert fs[0] + ft[0] == fs[0];
      assert [fs[0]] + fs[1..] == fs;
    }
  }

  /** A leading '$' closes an empty first field. */
  lemma FieldsAfterSeparator(u: string)
    ensures Fields("$" + u) == [""] + Fields(u)
  {
    assert ("$" + u)[1..] == u;
  }

  /** A '$'-free string is a single field. */
  lemma FieldsOfPiece(p: string)
    requires '$' !in p
    ensures Fields(p) == [p]
  {
    FieldsPrepend(p, "");
    assert p + "" == p;
  }

  /** A '$'-free piece followed by '$' is a whole first field. */
  lemma FieldsAfterPiece(p: string, t: string)
    requires '$' !in p
    ensures Fields(p + "$" + t) == [p] + Fields(t)
  {
    assert p + "$" + t == p + ("$" + t);
    FieldsPrepend(p, "$" + t);
    FieldsAfterSeparator(t);
    assert p + "" == p;
  }

  /** A '$' between a and t ends the last field of a and starts the first of t. */
  lemma {:induction false} FieldsConcat(a: string, t: string)
    ensures Fields(a + "$" + t) == Fields(a) + Fields(t)
    decreases |a|
  {
    if '$' !in a {
      FieldsAfterPiece(a, t);
      FieldsOfPiece(a);
    } else {
      var i :| 0 <= i < |a| && a[i] == '$';
      var p, q := a[..i], a[i + 1..];
      assert a == p + "$" + q;
      assert a + "$" + t == p + "$" + (q + "$" + t);
      FieldsConcat(p, q + "$" + t);
      FieldsConcat(q, t);
      FieldsConcat(p, q);
      AppendAssociative(Fields(p), Fields(q), Fields(t));
    }
  }

  /** Concatenation of sequences is associative. */
  lemma AppendAssociative<T>(x: seq<T>, y: seq<T>, z: seq<T>)
    ensures x + (y + z) == (x + y) + z
  {
  }

  /** Dropping empty elements commutes with concatenation. */
  lemma {:induction false} NonEmptyAppend(a: seq<string>, b: seq<string>)
    ensures NonEmpty(a + b) == NonEmpty(a) + NonEmpty(b)
    decreases |a|
  {
    if a == [] {
      assert a + b == b;
    } else {
      assert (a + b)[0] == a[0];
      assert (a + b)[1..] == a[1..] + b;
      NonEmptyAppend(a[1..], b);
    }
  }

  /** The pieces of a '$' t are the pieces of a followed by the pieces of t. */
  lemma SplitConcat(a: string, t: string)
    ensures Split(a + "$" + t) == Split(a) + Split(t)
  {
    FieldsConcat(a, t);
    NonEmptyAppend(Fields(a), Fields(t));
  }

  /** Three non-empty '$'-free pieces joined with '$' split back into those pieces. */
  lemma SplitThree(a: string, b: string, c: string)
    requires a != [] && b != [] && c != []
    requires '$' !in a && '$' !in b && '$' !in c
    ensures Split(a + "$" + b + "$" + c) == [a, b, c]
  {
    assert a + "$" + b + "$" + c == a + "$" + (b + "$" + c);
    SplitConcat(a, b + "$" + c);
    SplitConcat(b, c);
  }

  /** A run of '$' separates like a single one, and '$' at either end is ignored. */
  lemma SplitIgnoresEmptyPieces(a: string, b: string, s: string)
    ensures Split(a + "$$" + b) == Split(a + "$" + b)
    ensures Split("$" + s) == Split(s)
    ensures Split(s + "$") == Split(s)
  {
    assert a + "$$" + b == a + "$" + ("" + "$" + b);
    SplitConcat(a, "" + "$" + b);
    SplitConcat("", b);
    SplitConcat(a, b);
    assert "" + "$" + b == "$" + b;
    SplitConcat("", s);
    assert "" + "$" + s == "$" + s;
    SplitConcat(s, "");
    assert s + "$" + "" == s + "$";
  }

  // ---------------------------------------------------------------------------
  // The value type
  // ---------------------------------------------------------------------------

  /** `HashedPassword`; the datatype constructor is the memberwise `init(hash:hashType:salt:)`. */
  datatype HashedPassword = HashedPassword(hash: string, hashType: HashType, salt: string)

  /** `HashedPassword.Error`. */
  datatype ParseError = InvalidString

  /**
   * `init(string:)`: throws `invalidString` unless the '$'-split gives exactly
   * three pieces whose middle one names a hash type; stores the outer pieces
   * unchanged as hash and salt.
   */
  function Parse(s: string): (r: Result<HashedPassword, ParseError>)
    ensures r.Success? <==> |Split(s)| == 3 && Split(s)[1] in HashTypeNames
    ensures r.Failure? ==> r.error == InvalidString
    ensures r.Success? ==>
      && r.value.hash == Split(s)[0]
      && r.value.hashType.Name() == Split(s)[1]
      && r.value.salt == Split(s)[2]
  {
    var comps := Split(s);
    if |comps| == 3 && HashTypeFromString(comps[1]).Some? then
      Success(HashedPassword(comps[0], HashTypeFromString(comps[1]).value, comps[2]))
    else
      Failure(InvalidString)
  }

  /** Hash and salt that serialise unambiguously: non-empty and free of '$'. */
  predicate Serialisable(x: HashedPassword)
  {
    x.hash != [] && x.salt != [] && '$' !in x.hash && '$' !in x.salt
  }

  /**
   * `description`: "<hash>$<type>$<salt>", which splits back into the three
   * fields when hash and salt are serialisable.
   */
  function Description(x: HashedPassword): (r: string)
    ensures Serialisable(x) ==> Split(r) == [x.hash, x.hashType.Name(), x.salt]
  {
    var name := x.hashType.Name();
    assert Serialisable(x) ==> Split(x.hash + "$" + name + "$" + x.salt) == [x.hash, name, x.salt] by {
      if Serialisable(x) {
        SplitThree(x.hash, name, x.salt);
      }
    }
    x.hash + "$" + name + "$" + x.salt
  }

  /** Parsing the description of a serialisable value gives the value back. */
  lemma ParseDescription(x: HashedPassword)
    requires Serialisable(x)
    ensures Parse(Description(x)) == Success(x)
    ensures Equal(Parse(Description(x)).value, x)
  {
    HashTypeRoundTrip(x.hashType);
    HashTypeNameInjective(Parse(Description(x)).value.hashType, x.hashType);
  }

  /**
   * Conversely, a string that parses and has no empty '$'-piece is exactly
   * the description of what it parses to.
   */
  lemma DescriptionOfParse(s: string)
    requires Parse(s).Success?
    requires forall k :: 0 <= k < |Fields(s)| ==> Fields(s)[k] != []
    ensures Description(Parse(s).value) == s
  {
    var fs := Fields(s);
    JoinOfFields(s);
    assert Split(s) == fs;
    assert fs == [fs[0], fs[1], fs[2]];
    Join3(fs[0], fs[1], fs[2]);
  }

  /** A well-formed string whose middle piece names no hash type is refused. */
  lemma ParseRejectsUnknownType(hash: string, middle: string, salt: string)
    requires hash != [] && salt != [] && middle != []
    requires '$' !in hash && '$' !in middle && '$' !in salt
    requires middle !in HashTypeNames
    ensures Parse(hash + "$" + middle + "$" + salt) == Failure(InvalidString)
  {
    SplitThree(hash, middle, salt);
  }

  /** Parsing sees only the non-empty pieces: doubled, leading and trailing '$' change nothing. */
  lemma ParseIgnoresEmptyPieces(a: string, b: string, s: string)
    ensures Parse(a + "$$" + b) == Parse(a + "$" + b)
    ensures Parse("$" + s + "$") == Parse(s)
  {
    SplitIgnoresEmptyPieces(a, b, s);
    SplitIgnoresEmptyPieces(a, b, "$" + s);
  }

  /** The description of a serialisable value still parses back to it with its first '$' doubled. */
  lemma ParseToleratesDoubledSeparator(x: HashedPassword)
    requires Serialisable(x)
    ensures Parse(x.hash + "$$" + x.hashType.Name() + "$" + x.salt) == Success(x)
  {
    var rest := x.hashType.Name() + "$" + x.salt;
    assert Description(x) == x.hash + "$" + rest;
    assert x.hash + "$$" + x.hashType.Name() + "$" + x.salt == x.hash + "$$" + rest;
    ParseDescription(x);
    ParseIgnoresEmptyPieces(x.hash, rest, "");
  }

  /** ... and with a '$' added at each end. */
  lemma ParseToleratesOuterSeparators(x: HashedPassword)
    requires Serialisable(x)
    ensures Parse("$" + Description(x) + "$") == Success(x)
  {
    ParseDescription(x);
    ParseIgnoresEmptyPieces("", "", Description(x));
  }

  /** `==` on two values: field-wise, hence the same as value equality. */
  function Equal(a: HashedPassword, b: HashedPassword): (r: bool)
    ensures r <==> a == b
  {
    a.hash == b.hash && a.hashType == b.hashType && a.salt == b.salt
  }

  /**
   * `HashedPassword == String`: re-hash the candidate with the stored type
   * and salt and compare with the lower-cased stored hash.
   */
  function Matches(c: Crypto, x: HashedPassword, password: string): (r: bool)
    ensures r <==> Lower(c.hex(c.hmac(x.hashType, c.data(x.salt), c.data(password)))) == Lower(x.hash)
    ensures x.hash == Hash(c, x.hashType, x.salt, password) ==> r
  {
    Hash(c, x.hashType, x.salt, password) == Lower(x.hash)
  }

  /** `String == HashedPassword` is `HashedPassword == String` with the arguments swapped. */
  function StringMatches(c: Crypto, password: string, x: HashedPassword): (r: bool)
    ensures r <==> Lower(c.hex(c.hmac(x.hashType, c.data(x.salt), c.data(password)))) == Lower(x.hash)
    ensures x.hash == Hash(c, x.hashType, x.salt, password) ==> r
  {
    Matches(c, x, password)
  }

  /** Verification ignores the letter case of the stored hash. */
  lemma MatchesIgnoresStoredCase(c: Crypto, x: HashedPassword, y: HashedPassword, password: string)
    requires x.hashType == y.hashType && x.salt == y.salt
    requires Lower(x.hash) == Lower(y.hash)
    ensures Matches(c, x, password) == Matches(c, y, password)
  {
  }

  /** A value whose hash was computed from a password verifies against that password. */
  lemma FreshHashMatches(c: Crypto, t: HashType, salt: string, password: string)
    ensures Matches(c, HashedPassword(Hash(c, t, salt, password), t, salt), password)
  {
  }

  // ---------------------------------------------------------------------------
  // Construction from a password (`init(password:hashType:)`)
  // ---------------------------------------------------------------------------

  /** The fixed salt length of this revision. */
  const SaltLength: nat := 22

  /**
   * `init(password:hashType:)`: draws 22 characters from the letter pool and
   * hashes the password with them. The platform random source is replaced by
   * `indices`, the values its 22 calls return.
   */
  method NewHashedPassword(c: Crypto, password: string, pool: seq<char>, indices: seq<int>,
                           hashType: HashType := SHA1)
    returns (r: HashedPassword)
    requires |indices| == SaltLength
    requires forall k :: 0 <= k < |indices| ==> 0 <= indices[k] < |pool|
    ensures |r.salt| == SaltLength
    ensures forall k :: 0 <= k < SaltLength ==> r.salt[k] == pool[indices[k]]
    ensures forall k :: 0 <= k < SaltLength ==> r.salt[k] in pool
    ensures r.hashType == hashType
    ensures r.hash == Hash(c, hashType, r.salt, password)
    ensures Matches(c, r, password)
    ensures c.Valid() ==> |r.hash| == 2 * c.digestLength(hashType)
  {
    var salt := "";
    for n := 0 to SaltLength
      invariant |salt| == n
      invariant forall k :: 0 <= k < n ==> salt[k] == pool[indices[k]]
    {
      var i := indices[n];
      salt := salt + [pool[i]];
    }
    r := HashedPassword(Hash(c, hashType, salt, password), hashType, salt);
    FreshHashMatches(c, hashType, salt, password);
  }
}
