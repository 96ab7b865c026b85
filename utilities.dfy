/**
 * The name mapping and digest dispatch of CryptoSwift's `HMAC.Variant`
 * (Sources/Utilities.swift). The digests themselves (`Digest.md5`,
 * `Digest.sha1`, ...) are collaborators: they enter as the `Digests` value.
 */
module HmacVariants {
  import opened Wrappers

  /** CryptoSwift's `HMAC.Variant`. */
  datatype Variant = MD5 | SHA1 | SHA256 | SHA384 | SHA512
  {
    /** `HMAC.Variant.string`. */
    function Name(): (r: string)
      ensures r in VariantNames
    {
      match this
      case SHA1 => "sha1"
      case SHA256 => "sha256"
      case SHA384 => "sha384"
      case SHA512 => "sha512"
      case MD5 => "md5"
    }
  }

  /** The names `HMAC.Variant(string:)` accepts: lower case, matched exactly. */
  const VariantNames: set<string> := {"md5", "sha1", "sha256", "sha384", "sha512"}

  /** `HMAC.Variant.init?(string:)`. */
  function VariantFromString(s: string): (r: Option<Variant>)
    ensures r.Some? <==> s in VariantNames
    ensures r.Some? ==> r.value.Name() == s
  {
    match s
    case "md5" => Some(MD5)
    case "sha1" => Some(SHA1)
    case "sha256" => Some(SHA256)
    case "sha384" => Some(SHA384)
    case "sha512" => Some(SHA512)
    case _ => None
  }

  /** Every variant survives the trip through its name. */
  lemma VariantRoundTrip(v: Variant)
    ensures VariantFromString(v.Name()) == Some(v)
  {
  }

  /** Distinct variants have distinct names. */
  lemma VariantNameInjective(v: Variant, w: Variant)
    requires v.Name() == w.Name()
    ensures v == w
  {
  }

  /** A string is accepted exactly when it is the name of some variant. */
  lemma VariantFromStringIsNameInverse(s: string)
    ensures (exists v: Variant :: v.Name() == s) <==> VariantFromString(s).Some?
  {
  }

  /** Names outside the five, such as "sha224" or upper-case "SHA1", are refused. */
  lemma VariantFromStringIsExact()
    ensures VariantFromString("sha224") == None
    ensures VariantFromString("SHA1") == None
    ensures VariantFromString("MD5") == None
    ensures VariantFromString("") == None
  {
  }

  /** CryptoSwift's `Digest` functions. */
  datatype Digests = Digests(
    md5: seq<Byte> -> seq<Byte>,
    sha1: seq<Byte> -> seq<Byte>,
    sha256: seq<Byte> -> seq<Byte>,
    sha384: seq<Byte> -> seq<Byte>,
    sha512: seq<Byte> -> seq<Byte>)

  /** The member of `Digest` that carries a given name, if there is one. */
  function DigestNamed(d: Digests, name: string): Option<seq<Byte> -> seq<Byte>>
  {
    match name
    case "md5" => Some(d.md5)
    case "sha1" => Some(d.sha1)
    case "sha256" => Some(d.sha256)
    case "sha384" => Some(d.sha384)
    case "sha512" => Some(d.sha512)
    case _ => None
  }

  /** `HMAC.Variant.calculateHash(_:)`: the digest whose name is the variant's name. */
  function CalculateHash(v: Variant, d: Digests, bytes: seq<Byte>): (r: seq<Byte>)
    ensures DigestNamed(d, v.Name()).Some?
    ensures r == DigestNamed(d, v.Name()).value(bytes)
  {
    match v
    case SHA1 => d.sha1(bytes)
    case SHA256 => d.sha256(bytes)
    case SHA384 => d.sha384(bytes)
    case SHA512 => d.sha512(bytes)
    case MD5 => d.md5(bytes)
  }

  /** The five digests give pairwise different results on `bytes`. */
  predicate PairwiseDifferent(d: Digests, bytes: seq<Byte>)
  {
    var m, s1, s2, s3, s5 := d.md5(bytes), d.sha1(bytes), d.sha256(bytes), d.sha384(bytes), d.sha512(bytes);
    && m != s1 && m != s2 && m != s3 && m != s5
    && s1 != s2 && s1 != s3 && s1 != s5
    && s2 != s3 && s2 != s5
    && s3 != s5
  }

  /**
   * No variant reaches another's digest: when the five digests disagree on an
   * input, different variants give different results on it.
   */
  lemma CalculateHashSeparatesVariants(d: Digests, bytes: seq<Byte>, v: Variant, w: Variant)
    requires PairwiseDifferent(d, bytes)
    requires CalculateHash(v, d, bytes) == CalculateHash(w, d, bytes)
    ensures v == w
  {
  }
}
