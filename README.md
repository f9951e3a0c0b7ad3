# go-common core, modelled in Dafny

This project models four pieces of the `go-common` Go library:

- the 32-byte `Hash` value and its helpers (`common/hash.go`): `BytesToHash`,
  `SetBytes` and `Bytes`, hex output with `HashHex`, the `IsHex` test, and the digest
  compositions `ShaHash`, `Sha2Sum`, `RimpHash`, `Rimp160`, `Keccak256`, `Keccak256Hash`
  and `Keccak512`;
- the registry of named crypto implementations (`crypto/crypto.go`): `RegisterCrypto`
  refuses a nil instance and a name already taken, and `NewCrypto` refuses an unknown
  name;
- the pseudo-random helpers of `random.go`:
  - the seed assembled from eight bytes of entropy in `init`;
  - `Str`, which draws characters by rejection sampling of 6-bit chunks;
  - the integer conversions `Uint16`, `Int16`, `Int32`, `Uint64` and `Int64`;
  - `Bytes` and `Bool`;
- the custom RLP encoder and decoder of `MyCoolType` (`rlp/encoder_example_test.go`).
  The type is written as the two-element list `[A, B]`, and its `Name` is not encoded.

Digests are not modelled. SHA-256, RIPEMD-160 and Keccak are parameters: functions that
return bytes of the right length. What the model proves is how the library composes
them. The state of Go's `math/rand` generator is not modelled either. Each random
operation receives, in call order, the values its generator calls would return.

The RLP library itself is not part of this model. To state what `EncodeRLP` writes and
`DecodeRLP` reads, `Rlp` defines Recursive Length Prefix encoding, as described in
Appendix B of the Ethereum Yellow Paper, for the shapes the example uses: unsigned 64-bit
integers and lists of them. It also defines a canonical decoder for a list of such
integers. The decoder accepts a byte string exactly when that string starts with the
encoding of some list.

Files:

- `wrappers.dfy`: `Option` and `Result`.
- `octets.dfy`: bytes and big-endian numbers.
- `common_hash.dfy`: module `Common`.
- `crypto_registry.dfy`: module `Crypto`.
- `random.dfy`: module `Random`.
- `rlp.dfy`: module `Rlp`.
- `rlp_example.dfy`: module `RlpExample`.

Where the `Crypto` registry panics, and where RLP decoding fails, the model returns an error value instead. Elsewhere a Go panic becomes a `requires`, and "## Left out" lists each one.

## Model

| member | source | states |
|---|---|---|
| `Common.Copied` | common/hash.go:46 | Go's `copy(dst[off:], src)`: it copies the first `min(len(dst)-off, len(src))` bytes of `src` to `off`, and every other byte of `dst` is kept |
| `Common.Copy` | common/hash.go:46 | the in-place copy on an array: it returns the number of bytes copied, and the array becomes `Copied` of its old contents |
| `Common.WithBytes` | common/hash.go:39-47 | if the input has 32 or more bytes, the hash is its last 32 bytes (cropped from the left); a shorter input fills the tail of the hash, and the leading bytes are kept |
| `Common.SetBytes` | common/hash.go:41-47 | `SetBytes` on a 32-byte array leaves exactly `WithBytes` of the old contents |
| `Common.BytesToHash` | common/hash.go:19-25 | a short input is left-padded with zero bytes; a long input is cropped to its last 32 bytes |
| `Common.Bytes` | common/hash.go:37 | the byte slice of a hash has 32 bytes |
| `Common.BytesToHashOfBytes` | common/hash.go:21-37 | `BytesToHash(h.Bytes()) == h` for every hash |
| `Common.BytesToHashCropsLeft` | common/hash.go:40-44 | bytes in front of the last 32 do not affect the result |
| `Common.BytesToHashKeepsShort` | common/hash.go:41-46 | an input of at most 32 bytes can be read back from the end of the hash |
| `Common.WithBytesIdempotent` | common/hash.go:41-47 | setting the same bytes twice gives the same hash as setting them once |
| `Common.HexDigit` | common/hash.go:52 | a nibble becomes a lower-case hex digit |
| `Common.HexEncode` | common/hash.go:52 | hex text has two lower-case hex digits per byte |
| `Common.HexRoundTrip` | common/hash.go:52 | decoding the hex text gives back the original bytes |
| `Common.HashHex` | common/hash.go:49-54 | the result is always 64 characters; the first `2*len(d)` decode back to `d`, and the rest are the buffer's zero bytes |
| `Common.IsHex` | common/hash.go:57-60 | a string is accepted exactly when it is "0x" followed by a non-empty body of even length |
| `Common.IsHexExamples` | common/hash.go:56-60 | accepts "0x00", "0xzz" and "0x0000"; rejects "0x", "0x000", "00000" and "0X00"; the digits are never examined |
| `Common.IsHexOfPrefixed` | common/hash.go:57-60 | "0x" followed by any text of even length of at least 2 is accepted |
| `Common.HashHexIsNotPrefixed` | common/hash.go:49-60 | `IsHex` rejects every `HashHex` output, because that output has no "0x" prefix |
| `Common.Sha2Sum` | common/hash.go:80-86 | double SHA-256 gives 32 bytes |
| `Common.ShaHash` | common/hash.go:70-78 | `out` receives the double SHA-256 of `b`, as far as it fits, and keeps the rest |
| `Common.RimpHash` | common/hash.go:88-101 | `out` receives RIPEMD-160 of the SHA-256 of the input, as far as it fits, and keeps the rest |
| `Common.CopiedWhole` | common/hash.go:105-108 | a source at least as long as the buffer overwrites all of it |
| `Common.Rimp160` | common/hash.go:103-109 | the 20-byte result is exactly RIPEMD-160 of the SHA-256 of the input |
| `Common.HashAgreement` | hash_test.go:10-33 | the test's two equalities hold for all keys and all digests: `ShaHash` into 32 bytes equals `Sha2Sum`, and `RimpHash` into 20 bytes equals `Rimp160` |
| `Common.ConcatAppend` | common/hash.go:111-118 | how the data is split across arguments does not change what the digest is fed |
| `Common.WriteAll` | common/hash.go:114-116 | the loop writes every argument in order, i.e. their concatenation |
| `Common.Keccak256` | common/hash.go:111-118 | the result is the Keccak-256 digest of the concatenated arguments |
| `Common.Keccak256Hash` | common/hash.go:120-129 | the same digest, as a 32-byte `Hash` |
| `Common.Keccak512` | common/hash.go:131-138 | the result is the Keccak-512 digest of the concatenated arguments |
| `Crypto.Register` | crypto/crypto.go:14-24 | a nil instance fails first, then a name already present; otherwise the map gains exactly that name and keeps every other entry |
| `Crypto.Lookup` | crypto/crypto.go:27-35 | succeeds exactly when the name is present, with its instance; otherwise fails with that name |
| `Crypto.LookupAfterRegister` | crypto/crypto.go:14-35 | after a successful registration, `NewCrypto` finds the new instance, and every other name looks up as before |
| `Crypto.RegisterOnce` | crypto/crypto.go:20-22 | a second registration under the same name fails, whatever the instance |
| `Crypto.ReplaySucceeds` | crypto/crypto.go:14-24 | a series of registrations all succeed if and only if every instance is non-nil, no name is already present and no name repeats |
| `Crypto.ReplayContents` | crypto/crypto.go:14-35 | after a successful series, each name looks up to its instance, and no other name was added |
| `Crypto.ReplayKeeps` | crypto/crypto.go:20-23 | later registrations never replace an existing entry |
| `Crypto.Registry.constructor` | crypto/crypto.go:7-9 | the registry starts empty |
| `Crypto.Registry.RegisterCrypto` | crypto/crypto.go:14-24 | on success the map becomes `Register` of the old map; on failure the error is returned and the map is unchanged |
| `Crypto.Registry.NewCrypto` | crypto/crypto.go:27-35 | the result is `Lookup` of the current map |
| `Random.ToInt64` | random.go:48 | the int64 reading of a uint64 is in range and congruent to it modulo 2^64 |
| `Random.StepKeepsWindow` | random.go:44-47 | one loop round: or-ing the byte into the shifted accumulator is addition, and the shift keeps the bytes seen so far over a zero byte, mod 2^64 |
| `Random.Window` | random.go:44-47 | after eight rounds only bytes 1..7 remain, above a zero byte |
| `Random.Init` | random.go:41-49 | the seed passed to `reset` is `SeedOf(bz)`: bytes 1..7, big-endian, then a zero byte, read as an int64 |
| `Random.SeedLowByteZero` | random.go:44-48 | the low byte of the seed is always zero |
| `Random.SeedIgnoresFirstByte` | random.go:44-48 | the first entropy byte never affects the seed |
| `Random.SeedKeepsLastSevenBytes` | random.go:44-48 | two entropy strings give the same seed if and only if their bytes 1..7 agree |
| `Random.EmitAlphabet` | random.go:180-185 | every emitted character is one of the 62 of `strChars`; chunks 62 and 63 are rejected |
| `Random.TakeChunks` | random.go:179-191 | the inner loop examines a prefix of the draw's ten chunks and appends the characters of the accepted ones; it stops early exactly when `length` is reached, otherwise it has examined all ten |
| `Random.StrStep` | random.go:177-192 | one outer round extends the characters of the earlier draws with those of this draw, and cuts them at `length` |
| `Random.Str` | random.go:174-195 | the string is the first `length` characters produced by the chunks of the draws used; the draws before the last produce fewer than `length` |
| `Random.StrShape` | random.go:173-195 | the string has exactly `length` characters, all from the 62-character alphabet |
| `Random.Uint16` | random.go:197-200 | the low 16 bits of one draw |
| `Random.Int16` | random.go:223-226 | the low 16 bits as an int16: in range, congruent, negative exactly when bit 15 is set |
| `Random.Int32` | random.go:228-231 | a draw as an int32: in range, congruent, negative exactly when bit 31 is set |
| `Random.Uint64` | random.go:210-213 | the first draw is the high half and the second the low half |
| `Random.Int64` | random.go:233-236 | in int64 range, negative exactly when the high draw has bit 31 set, the low 32 bits are the second draw, and the result is `Uint64(hi, lo)` read as a signed 64-bit number (congruent to it modulo 2^64) |
| `Random.BoolAlternates` | random.go:320-325 | adjacent draws give opposite booleans |
| `Random.TrueCount` | random.go:320-325 | counts how many of `n` consecutive draws make `Bool` true; never more than `n` |
| `Random.BoolBalanced` | random.go:320-325 | `Bool` is uniform: over any `2n` consecutive draws it is true exactly `n` times |
| `Random.Bytes` | random.go:299-309 | `n` bytes; byte `i` is the low byte of the `i`-th draw |
| `Rlp.EncodeUint` | rlp/encoder_example_test.go:21-23 | an encoded list element takes 1 to 9 bytes |
| `Rlp.DecodeUint` | rlp/encoder_example_test.go:43 | a decoded element consumes at least one byte and no more than are available |
| `Rlp.DecodeUintRoundTrip` | rlp/encoder_example_test.go:21-43 | every unsigned integer decodes back from its encoding, whatever follows |
| `Rlp.DecodeUintsRoundTrip` | rlp/encoder_example_test.go:21-43 | a list payload decodes back to its elements |
| `Rlp.DecodeUintListRoundTrip` | rlp/encoder_example_test.go:21-43 | `Decode` of `Encode(w, []uint{...})` gives back the list and consumes exactly the encoding, whatever follows |
| `Rlp.DecodeUintCanonical` | rlp/encoder_example_test.go:43 | the bytes an integer is decoded from are its encoding, so no other form is accepted |
| `Rlp.DecodeUintsCanonical` | rlp/encoder_example_test.go:43 | a payload that decodes is the encoding of what it decodes to |
| `Rlp.ListHeaderCanonical` | rlp/encoder_example_test.go:43 | a list header that reads back is the shortest header for its size |
| `Rlp.DecodeUintListCanonical` | rlp/encoder_example_test.go:43 | the bytes a list is decoded from are its encoding |
| `Rlp.DecodeUintListIff` | rlp/encoder_example_test.go:41-45 | decoding yields `xs` using `k` bytes if and only if the input starts with the `k`-byte encoding of `xs` |
| `RlpExample.MyCoolType.constructor` | rlp/encoder_example_test.go:10-13 | the three fields as given |
| `RlpExample.MyCoolType.DecodeRLP` | rlp/encoder_example_test.go:41-52 | on success `A` and `B` are the two decoded elements; a decoding error or a list of other than two elements is returned, and `A` and `B` are unchanged; `Name` is never written |
| `RlpExample.EncodeRLP` | rlp/encoder_example_test.go:16-25 | writes exactly the RLP list of the two numbers: `[0, 0]` (bytes C2 80 80) for a nil receiver, `[A, B]` otherwise; that encoding decodes back to the pair |
| `RlpExample.EncodeIgnoresName` | rlp/encoder_example_test.go:15-24 | the encoding depends only on `A` and `B` |
| `RlpExample.DecodePairIff` | rlp/encoder_example_test.go:41-52 | `DecodeRLP` yields `(a, b)` if and only if the input starts with the encoding of `[a, b]` |
| `RlpExample.SmallPairBytes` | rlp/encoder_example_test.go:74-76 | a pair of integers from 1 to 127 encodes as C2 a b |
| `RlpExample.DecodeFunc` | rlp/encoder_example_test.go:54-63 | decoding into a zero value succeeds exactly when `DecodeRLP` does; on success the fields are the decoded pair; on failure the error is returned and the fields stay zero |
| `RlpExample.ExampleEncoder` | rlp/encoder_example_test.go:65-79 | the documented output: nil gives C28080, {foobar 5 6} gives C20506, and the final decode succeeds |

## Left out

- Digest internals are not modelled (SHA-256, RIPEMD-160, Keccak-256, Keccak-512). Each is a function parameter with the right output length.
- `Sha256` (common/hash.go:65-68) is not modelled. It only calls the digest, which is a parameter here.
- `HexToHash` is not part of this model. It depends on `FromHex`, which is not part of this model either.
- Common.HashHex: requires at most 32 input bytes. Longer input overruns the 64-byte buffer, and the panic that follows in Go is not modelled.
- Common.RimpHash: the error returns after `Write` are not modelled. `Write` on these digests never fails.
- Random: the `math/rand` generator and the `crypto/rand` entropy source are not modelled. Their outputs are parameters, in call order.
- Random: the mutex is not modelled, and neither are `NewRand`, `reset` and `Seed`.
- Random: the global forwarders `Rand*` are not modelled.
- Random: the methods that only forward to `math/rand` are not modelled: `Uint32`, `Uint`, `Int`, `Int31`, `Int31n`, `Int63`, `Int63n`, `Intn` and `Perm`.
- Random: `Float32`, `Float64` and `Time` are not modelled (floating point and time).
- Random: `cRandBytes` and `RandHex` are not modelled. They read the operating system's entropy.
- Random.Str: requires `length >= 1`, because with `length <= 0` the Go loop never ends.
- Random.Str: requires that the draws supplied produce at least `length` characters. The generator's stream is endless; the model's list of draws is finite.
- Random.Bytes: requires `n >= 0`. A negative `n` panics in `make`.
- Random.Bool: uniformity is stated over consecutive draw values (`BoolBalanced`). The distribution of the generator's draws is not modelled.
- Go strings are byte strings; they are modelled as character sequences. For `HashHex` and `Str` every character is ASCII, so the two readings agree.
- Common.IsHex: counts characters, where Go's `len` and `str[0:2]` count UTF-8 bytes. The two agree on ASCII text only: Go accepts "0xé" (four bytes), while the model rejects it (three characters).
- Crypto: the mutex is not modelled.
- Crypto: the `Crypto` interface is a type parameter. `crypto/types.go` is not part of this model.
- Crypto: panics are modelled as returned errors, and the registry is left unchanged.
- Rlp: the rest of the RLP library is not part of this model: `Stream`, reflection-based encoding, byte strings, big integers, structs, nested lists and input limits. Its error values are named, but their messages are not modelled.
- Rlp: Go's `uint` is modelled as 64 bits.
- RlpExample.EncodeRLP: the writer's error is not modelled. Encoding to bytes cannot fail.
- RlpExample: the `fmt.Printf` output and the error message texts are not modelled.
- RlpExample.DecodeFunc: returns the decoding error itself, not the message that wraps it.
- RlpExample: `TestExample` is not modelled. `ExampleEncoder` states what it checks.
