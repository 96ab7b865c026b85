# HashedPassword, modelled in Dafny

This project models the core of Zewo's HashedPassword package for Swift. It covers three source files:

- `Sources/PBKDF2.swift` holds the PBKDF2 key derivation of section 5.2 of RFC 8018. The model is module `KeyDerivation` (`pbkdf2.dfy`). The input checks of `PBKDF2.init` are a function, `Init`, that returns a `Result`. The block loop of `calculate` and the chained HMAC with in-place XOR of `calculateBlock` are methods with loops (`Calculate`, `CalculateBlock`, `XorInto`). The four-byte `UInt.buffer` fills an `array` by index (`BlockIndexBuffer`). Each method is proved equal to the RFC's definition (`U`, `XorOfRounds`, `Block`, `Blocks`, `DerivedKey`), and lemmas establish what that definition promises.
- `Sources/HashedPassword.swift` holds the `HashedPassword` value type. The model is module `HashedPasswords` (`hashed_password.dfy`). It covers the digest-name mapping of `HashType`, parsing `"<hash>$<type>$<salt>"`, `description`, the three `==` operators, and the salt-drawing loop of `init(password:)`. In this revision a password is hashed only with HMAC keyed by the salt. PBKDF2 is not called, and no `hash_…`/`hmac_…`/`pbkdf2_…` method field is parsed.
- `Sources/Utilities.swift` holds the name mapping and digest dispatch of CryptoSwift's `HMAC.Variant`. The model is module `HmacVariants` (`utilities.dfy`).

The three files come from different revisions, and each uses its own enumeration. They are OpenSSL's `Hash.Function` (`KeyDerivation.HashFunction`), OpenSSL's `HashType` (`HashedPasswords.HashType`) and CryptoSwift's `HMAC.Variant` (`HmacVariants.Variant`). Each is kept separate. `Wrappers` (`wrappers.dfy`) holds `Option`, `Result`, the `Byte` octet type and XOR on octets.

Foreign code is passed in as values of function type. Nothing is known about it except the length facts that each collaborator's `Valid()` predicate states. These collaborators are:

- OpenSSL's `Hash.hmac` and `digestLength` (`KeyDerivation.Hmac`)
- the HMAC, `String.data` and `hexadecimalString()` used by `HashedPassword.swift` (`HashedPasswords.Crypto`)
- CryptoSwift's `Digest.md5`/`sha1`/`sha256`/`sha384`/`sha512` (`HmacVariants.Digests`)

The platform random number generator is replaced by the sequence of indices its calls return. The `pool` of letters is a parameter.

`Sources/HashedPassword.swift` uses `split(separator:)` from the `String` module, and that module is not part of this model. The model reads it like Swift's standard `split`, which drops empty pieces: `Split` is the non-empty pieces of `Fields`. `Fields` is proved to be the inverse of joining `$`-free fields with `$`. A `$` splits the pieces of its two sides apart (`SplitConcat`), so runs of `$` and `$` at either end are ignored. The serialisation round trip is stated for non-empty, `$`-free hash and salt.

The PBKDF2 salt cannot be changed by `calculateBlock`. Every byte string in the model is an immutable `seq`, so each block builds its own message `S || INT(i)`.

## Model

| member | source | states |
|---|---|---|
| `KeyDerivation.BlockIndexBuffer` | Sources/PBKDF2.swift:34-43 | INT(i) is exactly 4 octets, most significant first: decoding them big-endian gives i mod 2^32 |
| `KeyDerivation.Be32` | Sources/PBKDF2.swift:36-40 | the shift-and-mask octets of i are 4 octets that decode big-endian to i mod 2^32, so every i < 2^32 round-trips |
| `KeyDerivation.Be32Injective` | Sources/PBKDF2.swift:34-43 | two indices below 2^32 with the same encoding are equal |
| `KeyDerivation.NumBlocks` | Sources/PBKDF2.swift:78 | the block count is ceil(dkLen / hLen): the least n with dkLen <= n * hLen (exact integers in place of `ceil` on doubles) |
| `KeyDerivation.NumBlocksFitsCounter` | Sources/PBKDF2.swift:69-78 | after the bound check dkLen <= (2^32 - 1) * hLen, the block count is below 2^32, so INT(i) is lossless |
| `KeyDerivation.KeyLength` | Sources/PBKDF2.swift:68 | an explicit key length is taken as given, even a non-positive one; without one the key length is the digest length, which is positive |
| `KeyDerivation.Init` | Sources/PBKDF2.swift:63-80 | fails with `invalidInput` exactly when iterations <= 0 or the password or salt is empty, checked first; fails with `derivedKeyTooLong` exactly when the inputs are valid and dkLen > (2^32 - 1) * hLen; otherwise stores the inputs, with dkLen = keyLength or the digest length when keyLength is nil; for dkLen >= 1, numBlocks = ceil(dkLen / hLen) is between 1 and 2^32 - 1, and for a key length in (-hLen, 0] numBlocks is 0 |
| `KeyDerivation.U` | Sources/PBKDF2.swift:93-99 | each chained HMAC value U_j is exactly hLen octets long |
| `KeyDerivation.XorOfRounds` | Sources/PBKDF2.swift:96-103 | the accumulated XOR of U_1 .. U_c keeps length hLen |
| `KeyDerivation.Block` | Sources/PBKDF2.swift:92-106 | every block T_i is hLen octets long |
| `KeyDerivation.Blocks` | Sources/PBKDF2.swift:83-88 | the concatenation of the blocks 1..n is n * hLen octets |
| `KeyDerivation.DerivedKey` | Sources/PBKDF2.swift:89 | the derived key (a prefix of the concatenated blocks) is exactly dkLen octets long |
| `KeyDerivation.XorInto` | Sources/PBKDF2.swift:100-102 | the in-place loop leaves `ret` equal to the octet-wise XOR of its old contents with u |
| `KeyDerivation.CalculateBlock` | Sources/PBKDF2.swift:92-106 | the block computed with the array accumulator equals U_1 xor ... xor U_iterations, with U_1 = HMAC(P, S || INT(i)) and U_j = HMAC(P, U_(j-1)); loop invariant: after round k the array holds U_1 xor ... xor U_k |
| `KeyDerivation.Calculate` | Sources/PBKDF2.swift:82-90 | appending blocks 1..numBlocks in order and keeping dkLen octets gives the RFC 8018 derived key |
| `KeyDerivation.Derive` | Sources/PBKDF2.swift:59-61 | the static entry fails exactly as `init` does, and otherwise returns the derived key, exactly dkLen octets |
| `KeyDerivation.BlocksAt` | Sources/PBKDF2.swift:83-88 | octet k of T_1 .. T_n is octet k mod hLen of block k / hLen + 1 |
| `KeyDerivation.DerivedKeyLayout` | Sources/PBKDF2.swift:82-90 | octet k of the derived key comes from block k / hLen + 1, which is one of 1..numBlocks: blocks are laid out in index order |
| `KeyDerivation.DerivedKeyPrefix` | Sources/PBKDF2.swift:82-90 | two derivations that differ only in key length agree on their common octets: the shorter key is a prefix of the longer |
| `KeyDerivation.BlockMessagesDistinct` | Sources/PBKDF2.swift:93-95 | the messages S || INT(i) of different blocks 1..numBlocks are different |
| `KeyDerivation.SingleIterationBlock` | Sources/PBKDF2.swift:95-97 | with one iteration a block is exactly U_1 = HMAC(P, S || INT(i)) |
| `HashedPasswords.HashType.Name` | Sources/HashedPassword.swift:41-49 | every hash type has one of the five names, and none is empty or holds '$' |
| `HashedPasswords.HashTypeFromString` | Sources/HashedPassword.swift:30-39 | accepts exactly "sha1", "sha224", "sha256", "sha384", "sha512" and returns nil for anything else; what it returns has the given string as its name |
| `HashedPasswords.HashTypeRoundTrip` | Sources/HashedPassword.swift:30-49 | `HashType(string: t.string) == t` for every t |
| `HashedPasswords.HashTypeNameInjective` | Sources/HashedPassword.swift:41-49 | `.string` is injective |
| `HashedPasswords.Lower` | Sources/HashedPassword.swift:52 | ASCII lowercasing keeps the length, leaves no upper-case letter, and changes only 'A'..'Z' to 'a'..'z' |
| `HashedPasswords.LowerKeepsLowercase` | Sources/HashedPassword.swift:109 | lowercasing a string without upper-case letters changes nothing |
| `HashedPasswords.LowerIdempotent` | Sources/HashedPassword.swift:109 | lowercasing twice equals lowercasing once |
| `HashedPasswords.Hash` | Sources/HashedPassword.swift:51-53 | the salted HMAC in hex is lower case and has 2 * digest length characters |
| `HashedPasswords.Fields` | Sources/HashedPassword.swift:73 | splitting on '$', empty pieces included, gives at least one piece and no piece holds '$' |
| `HashedPasswords.JoinOfFields` | Sources/HashedPassword.swift:73 | joining the pieces with '$' gives back the input |
| `HashedPasswords.NonEmpty` | Sources/HashedPassword.swift:73 | dropping empty pieces keeps only pieces of the input, none empty, and changes nothing when no piece is empty |
| `HashedPasswords.NonEmptyAppend` | Sources/HashedPassword.swift:73 | dropping empty pieces commutes with concatenation, so the kept pieces stay in their order |
| `HashedPasswords.Split` | Sources/HashedPassword.swift:73 | every piece of `split(separator: "$")` is non-empty and free of '$'; a '$'-free string is one piece, or none when it is empty |
| `HashedPasswords.FieldsPrepend` | Sources/HashedPassword.swift:73 | '$'-free text put in front of a string extends that string's first piece |
| `HashedPasswords.FieldsOfJoin` | Sources/HashedPassword.swift:73 | splitting '$'-free fields joined with '$' gives the fields back |
| `HashedPasswords.FieldsAfterSeparator` | Sources/HashedPassword.swift:73 | a leading '$' produces an empty first piece before the pieces of the rest |
| `HashedPasswords.FieldsOfPiece` | Sources/HashedPassword.swift:73 | a '$'-free string is a single piece |
| `HashedPasswords.FieldsAfterPiece` | Sources/HashedPassword.swift:73 | a '$'-free piece followed by '$' is a whole first piece |
| `HashedPasswords.FieldsConcat` | Sources/HashedPassword.swift:73 | the pieces of a + "$" + t are the pieces of a followed by the pieces of t |
| `HashedPasswords.SplitConcat` | Sources/HashedPassword.swift:73 | the non-empty pieces of a + "$" + t are those of a followed by those of t |
| `HashedPasswords.SplitThree` | Sources/HashedPassword.swift:73 | three non-empty '$'-free strings joined with '$' split into exactly those three pieces |
| `HashedPasswords.SplitIgnoresEmptyPieces` | Sources/HashedPassword.swift:73 | "$$" splits like "$", and a leading or trailing '$' is ignored |
| `HashedPasswords.Parse` | Sources/HashedPassword.swift:72-76 | throws `invalidString` exactly when the split does not give three pieces or the middle piece is no hash-type name; on success stores piece 0 as hash, the type named by piece 1, and piece 2 as salt |
| `HashedPasswords.Description` | Sources/HashedPassword.swift:98-100 | for a non-empty, '$'-free hash and salt, "<hash>$<type>$<salt>" splits into exactly hash, type name and salt |
| `HashedPasswords.ParseDescription` | Sources/HashedPassword.swift:98-100 | for a non-empty, '$'-free hash and salt, parsing `description` gives back a value `==` to the original |
| `HashedPasswords.DescriptionOfParse` | Sources/HashedPassword.swift:72-76 | a string that parses and has no empty '$'-piece is the `description` of its parse |
| `HashedPasswords.ParseRejectsUnknownType` | Sources/HashedPassword.swift:74 | "<hash>$<m>$<salt>" with m not a hash-type name (for example "pbkdf2_sha256_4096") throws `invalidString` |
| `HashedPasswords.ParseIgnoresEmptyPieces` | Sources/HashedPassword.swift:72-76 | parsing gives the same result when a '$' is doubled, and when a '$' is added at both ends |
| `HashedPasswords.ParseToleratesDoubledSeparator` | Sources/HashedPassword.swift:72-76 | "<hash>$$<type>$<salt>" of a serialisable value parses back to that value |
| `HashedPasswords.ParseToleratesOuterSeparators` | Sources/HashedPassword.swift:72-76 | "$" + description + "$" of a serialisable value parses back to that value |
| `HashedPasswords.Equal` | Sources/HashedPassword.swift:104-106 | `HashedPassword == HashedPassword` holds exactly when the two values are equal, so it is reflexive and symmetric |
| `HashedPasswords.Matches` | Sources/HashedPassword.swift:108-110 | `HashedPassword == String` holds exactly when the lower-cased hex HMAC of the candidate, keyed by the stored salt with the stored type, equals the lower-cased stored hash; a hash computed that way always matches |
| `HashedPasswords.StringMatches` | Sources/HashedPassword.swift:112 | `String == HashedPassword` holds exactly when the lower-cased hex HMAC of the password, keyed by the stored salt, equals the lower-cased stored hash, as `HashedPassword == String` with the arguments swapped does; a freshly computed hash always matches |
| `HashedPasswords.MatchesIgnoresStoredCase` | Sources/HashedPassword.swift:108-110 | verification does not depend on the letter case of the stored hash |
| `HashedPasswords.FreshHashMatches` | Sources/HashedPassword.swift:108-110 | a value whose hash was computed from a password with its own type and salt verifies against that password |
| `HashedPasswords.NewHashedPassword` | Sources/HashedPassword.swift:86-96 | the salt has exactly 22 characters, the k-th being the pool character at the k-th drawn index; the hash is the salted HMAC of the password; the result verifies against the password |
| `HmacVariants.Variant.Name` | Sources/Utilities.swift:56-64 | every variant has one of the five names |
| `HmacVariants.VariantFromString` | Sources/Utilities.swift:44-54 | maps exactly "md5", "sha1", "sha256", "sha384", "sha512" to a variant, and returns nil for every other string; the variant returned has the given string as its name |
| `HmacVariants.VariantRoundTrip` | Sources/Utilities.swift:44-64 | `Variant(string: v.string) == v` for all five variants |
| `HmacVariants.VariantNameInjective` | Sources/Utilities.swift:56-64 | `.string` is injective |
| `HmacVariants.VariantFromStringIsNameInverse` | Sources/Utilities.swift:44-64 | a string is accepted exactly when it is the name of some variant |
| `HmacVariants.VariantFromStringIsExact` | Sources/Utilities.swift:52 | "sha224", "SHA1", "MD5" and "" are refused: matching is exact and case-sensitive |
| `HmacVariants.CalculateHash` | Sources/Utilities.swift:66-79 | each variant is sent to the `Digest` function that has the variant's name |
| `HmacVariants.CalculateHashSeparatesVariants` | Sources/Utilities.swift:66-79 | when the five digests disagree on an input, different variants give different results, so no variant reaches another's digest |

## Left out

- Cryptographic internals: `Hash.hmac`, the `Digest` functions, `hexadecimalString()`, `String.data` and `digestLength` are foreign code. The model uses them only as function parameters with their length facts. SHA, MD5 and HMAC are not implemented, so the known-answer checks of `Tests/HashedPasswordTests/HashedPasswordTests.swift` cannot be stated. Those fixtures also use `pbkdf2_…` and `hash_…` middle fields, which this revision's parser refuses (`ParseRejectsUnknownType`).
- Randomness: `HashedPassword.rand` and `Random.number` call the platform generator. `NewHashedPassword` takes the values those calls return as `indices` and requires them to lie within the pool. An index outside the pool would trap in Swift. The per-platform ranges of `rand` are not modelled. On Darwin, `arc4random_uniform(pool.count - 1)` never picks the last pool character.
- The alphabet of `CharacterSet.letters` belongs to a module that is not part of this model. `pool` is a parameter.
- Floating point: `PBKDF2.init` computes the bound and the block count with `pow`, `ceil` and `Double`. The model uses exact integers. The two agree while dkLen and hLen are exactly representable as doubles.
- Init: requires, once the input checks pass, a key length above -hLen. A key length of -hLen or less makes `ceil(dkLen / hLen)` at most -1, and its `UInt` conversion traps. A key length in (-hLen, 0] is accepted with numBlocks = 0, as in Swift.
- Derive: requires, once the input checks pass, a given keyLength to be at least 1. With numBlocks = 0, `calculate` builds the range `1 ... 0`, which traps in Swift.
- CalculateBlock: returns the block directly. The Swift `calculateBlock` returns an optional that is never nil, so the `if let` in `calculate` always appends.
- Lower: models `lowercased()` on ASCII letters only. Swift's Unicode case mapping of other characters is not modelled. `String` equality is modelled as equality of character sequences, not Unicode canonical equivalence.
- The `String` module that provides `split(separator:)` is not part of this model. Its semantics are taken to be Swift's standard `split`, which omits empty pieces.
- `Package.swift` is build metadata only.
