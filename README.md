# wascap: signed claims embedded in a WebAssembly module

This project models `src/wasm.rs` of wascap in Dafny. That file embeds a signed claims token (a JWT, RFC 7519) into a WebAssembly module, as a custom section named `"jwt"` (section 5.5.3 of the WebAssembly Core Specification). It also extracts the token again and verifies it against a hash of the module.

- **Extraction** (`extract_claims`): parse the module; find the first `"jwt"` custom section (no section means "no token", not an error); read its payload as UTF-8; decode the token; compare its `module_hash` with the module's canonical hash.
- **Canonical hash** (`compute_hash_without_jwt`): clear the `"jwt"` section on a clone, serialise, take the SHA-256 digest (FIPS 180-4) and render it as upper-case hex (Base 16, section 8 of RFC 4648).
- **Embedding** (`embed_claims`): hash the re-serialised original, sign a copy of the claims carrying that hash, and set the `"jwt"` section of a fresh parse of the original to the token.
- **Streaming digest** (`sha256_digest`): a loop that reads 1024-byte chunks and feeds them to the hash context.
- **Signing helper** (`sign_buffer_with_claims`, `days_from_now_to_jwt_time`): turns day offsets into epoch seconds and builds the claims.

Files:

- `types.dfy`: bytes, `u64`, the 32-byte `Digest`, `Option`/`Result`, the error kinds, `Claims`, `Token` and `KeyPair`.
- `hex.dfy`: HEXUPPER and its decoder.
- `sections.dfy`: the module's section list, the custom-section operations, and a `Module` class with in-place `SetCustomSection`/`ClearCustomSection`.
- `digest.dfy`: the reader over a byte slice, the hash context and the chunked digest loop.
- `wasm.dfy`: the collaborators, the canonical hash, extraction and embedding.
- `properties.dfy`: what the protocol guarantees and where it falls short.
- `signing.dfy`: day offsets and `sign_buffer_with_claims`.

## Foreign code and assumptions

Code this module calls but does not contain becomes parameters, gathered in `Wasm.Collaborators`:

- `parity_wasm`'s `deserialize_buffer` and `serialize`
- SHA-256
- `Claims::encode` and `Claims::decode`
- `String::from_utf8` and `str::as_bytes`

`Claims::with_dates` is the `withDates` parameter of `Signing.SignBufferWithClaims`. The laws the proofs rely on are stated as predicates and required by the lemmas that need them:

- `ParsesWhatItWrites`: serialising a module the parser produced, or such a module with one custom section set or cleared, gives bytes that parse back to it. Nothing is claimed of other section lists, such as a non-custom section repeated or out of order, which a conforming parser rejects.
- `DecodesWhatItSigns`: decoding an encoded token gives back the claims.
- `Utf8RoundTrips`: converting a string's UTF-8 bytes back gives the string.

`Sections.SetCustom` and `Sections.ClearCustom` state what the model assumes of parity_wasm's `set_custom_section` and `clear_custom_section`, whose source is not part of this model:

- Setting overwrites the first custom section of that name in place, or appends a new section at the end.
- Clearing removes only the first custom section of that name.

## Model

| member | source | states |
|---|---|---|
| `Hex.Encode` | src/wasm.rs:66 | HEXUPPER output is two characters per byte, all from `0-9A-F` |
| `Hex.DecodeEncode` | src/wasm.rs:130 | decoding the upper-case hex text of any bytes gives back those bytes |
| `Hex.EncodeInjective` | src/wasm.rs:46 | two hash strings are equal only if the digests are, so comparing the hex texts compares the digests |
| `Hex.DigestText` | src/wasm.rs:175 | a rendered SHA-256 digest is 64 upper-case hex digits, never the empty hash of unsigned claims |
| `Sections.Payloads` | src/wasm.rs:33-38 | the filtered list of `"jwt"` payloads is empty exactly when the module has no custom section of that name |
| `Sections.SetCustomPlacement` | src/wasm.rs:71 | setting overwrites the first section of that name where it stands, or appends the new section after all others when there is none |
| `Sections.SetCustom` | src/wasm.rs:71 | the set payload becomes the first of that name; later same-named payloads and all other sections are kept; length grows by one only when the name was absent |
| `Sections.ClearCustomPlacement` | src/wasm.rs:126 | clearing removes exactly the first section of that name, with the sections before and after it kept in order |
| `Sections.ClearCustom` | src/wasm.rs:126 | only the first same-named payload is dropped; all other sections are kept; length shrinks by one only when the name was present |
| `Sections.ClearAbsent` | src/wasm.rs:126 | clearing a section that is absent changes nothing |
| `Sections.ClearAfterSet` | src/wasm.rs:124-127 | clearing after setting gives the original cleared, whatever payload was set and whether it replaced or appended |
| `Sections.Module.Clone` | src/wasm.rs:125 | the clone is a fresh object with the same sections |
| `Sections.Module.SetCustomSection` | src/wasm.rs:71 | the module's sections become `SetCustom` of the old ones |
| `Sections.Module.ClearCustomSection` | src/wasm.rs:126 | the module's sections become `ClearCustom` of the old ones |
| `Streaming.SliceReader.Read` | src/wasm.rs:114 | a read copies as many unread bytes as fit in the buffer and advances past exactly those, and leaves the rest of the buffer untouched; with the non-empty buffer the source uses, it returns 0 only on an exhausted slice |
| `Streaming.Context.Update` | src/wasm.rs:118 | the context absorbs the chunk after what it already absorbed |
| `Streaming.Context.Finish` | src/wasm.rs:121 | the digest is SHA-256 of everything absorbed |
| `Streaming.Sha256Digest` | src/wasm.rs:109-122 | the loop terminates; its digest is SHA-256 of the whole input; the chunks fed are non-empty, at most 1024 bytes, and join to the input in order |
| `Wasm.CanonicalHash` | src/wasm.rs:124-131 | the canonical hash is 64 upper-case hex digits; it fails, with the parity_wasm error, exactly when serialising the cleared module fails |
| `Wasm.ComputeHashWithoutJwt` | src/wasm.rs:124-131 | clearing on a clone, serialising, the digest loop and hex encoding give `CanonicalHash` of the caller's module, which the method does not modify |
| `Wasm.ExtractClaims` | src/wasm.rs:30-52 | any token extraction returns declares a 64-digit upper-case hex module hash |
| `Wasm.EmbedHash` | src/wasm.rs:61-66 | the hash embedding signs is 64 upper-case hex digits |
| `Wasm.EmbedClaims` | src/wasm.rs:60-76 | parse, re-serialise, digest, sign the re-hashed copy, re-parse, set the `"jwt"` section and serialise give `Embedded`, with each step's error propagated |
| `WasmProperties.AbsentTokenIsNotAnError` | src/wasm.rs:33-39 | for a parsed module, extraction gives `Ok(None)` if and only if there is no `"jwt"` section |
| `WasmProperties.Utf8CheckedFirst` | src/wasm.rs:41-43 | a first `"jwt"` payload that is not UTF-8 gives `Utf8` whatever the token decoder, serialiser and hash do |
| `WasmProperties.HashComparisonDecides` | src/wasm.rs:43-50 | once the token decodes, `InvalidModuleHash` comes exactly when the canonical hash differs from `module_hash`; otherwise the token holds the payload text and the decoded claims unchanged |
| `WasmProperties.InvalidModuleHashOnlyOnMismatch` | src/wasm.rs:46-47 | `InvalidModuleHash` means the module parsed, the token decoded, and the canonical hash differs from the declared one |
| `WasmProperties.AcceptedTokenIsGenuine` | src/wasm.rs:41-49 | an extracted token is the UTF-8 text of the first `"jwt"` section; the decoder accepted it; its declared hash is the canonical hash |
| `WasmProperties.CanonicalHashIgnoresToken` | src/wasm.rs:124-131 | setting the `"jwt"` section to any payload leaves the canonical hash unchanged |
| `WasmProperties.AcceptedTokenBindsDigest` | src/wasm.rs:43-47 | if a token is accepted on each of two modules with the same declared hash, their canonical bytes have one SHA-256 digest |
| `WasmProperties.TamperNeedsCollision` | src/wasm.rs:43-47 | if two modules differ outside their `"jwt"` section and both are accepted with the same declared hash, their canonical bytes are two DIFFERENT strings with one SHA-256 digest, so tampering is accepted only through a collision |
| `WasmProperties.EmbedSignsHashedCopy` | src/wasm.rs:64-68 | a successful embed signs the claims with `module_hash` set to 64 upper-case hex digits (non-empty) and nothing else changed |
| `WasmProperties.EmbeddedCarriesToken` | src/wasm.rs:68-73 | the embedded module parses back to the original with `"jwt"` set to the token's bytes; that payload reads back as the token, which decodes to the signed claims |
| `WasmProperties.EmbedThenExtract` | src/wasm.rs:148-178 | for an original with no `"jwt"` section, extracting the embedded module returns the signed token and claims; issuer and caps are preserved and the hash is filled in |
| `WasmProperties.IntendedEmbedThenExtract` | src/wasm.rs:61-64 | with the canonical hash signed instead, extraction returns the signed token and claims for EVERY original, including one that already carries a `"jwt"` section |
| `WasmProperties.ResignNeedsCollision` | src/wasm.rs:61-64 | if the original already has a `"jwt"` section, extraction after embedding succeeds only if SHA-256 gives two different byte strings one digest |
| `Signing.DaysFromNowToJwtTime` | src/wasm.rs:105-107 | `None` stays `None`; `Some(d)` becomes an instant exactly `d` whole days of 86400 seconds after `now` |
| `Signing.DaysFromNowMonotone` | src/wasm.rs:106 | more days never give an earlier instant |
| `Signing.SignBufferWithClaims` | src/wasm.rs:78-96 | the claims are built with the account key as issuer and the module key as subject, then embedded and signed with the account key; for a buffer without a token the result verifies and carries those claims |

## Findings

| source | as written | input that shows it | evidently intended | confidence | as-written member | corrected member |
|---|---|---|---|---|---|---|
| src/wasm.rs:61-64 | `embed_claims` hashes the original re-serialised with any existing `"jwt"` section still in it, while extraction hashes the module with that section cleared (src/wasm.rs:124-127); the source marks the spot `TODO: FIX MODULE HASHING` (src/wasm.rs:45) | any module that already carries a `"jwt"` section, e.g. one signed before and now re-signed: the signed hash covers the old token, the checked hash does not, so extraction returns `InvalidModuleHash` unless SHA-256 collides | sign the canonical hash, the one extraction checks (`Wasm.EmbeddedIntended`), so every embedded module verifies | high, from reading the code; not executed | `WasmProperties.ResignNeedsCollision` | `WasmProperties.IntendedEmbedThenExtract` |

The rest of the model (`Wasm.EmbedClaims`, `Signing.SignBufferWithClaims`) keeps the code as written. Its round trip, `WasmProperties.EmbedThenExtract`, is therefore proved only for originals without a `"jwt"` section.

## Left out

- WebAssembly binary parsing and serialisation (parity_wasm) are parameters, not implemented. Their round-trip law is an assumption.
- `set_custom_section` / `clear_custom_section`: parity_wasm is not part of this model. Their behaviour is the assumption stated above. It is not derived from their source.
- SHA-256 (`ring`) is the parameter `sha256`. A context's internal state is abstracted as the bytes it has absorbed.
- JWT encoding, decoding, signature checking and key pairs (`crate::jwt`, `nkeys`) are parameters. Every codec failure is the single error kind `Jwt(reason)`. The crate's error module is not part of this model.
- The `?` conversions of foreign errors are assumed to map as follows. A parity_wasm error becomes `Wasm`. A UTF-8 error becomes `Utf8`. A read error becomes `Io`, which reading an in-memory slice never raises, so no path produces it.
- `Claims::with_dates` is not part of this model: it is the `withDates` parameter, so only the arguments passed to it are modelled.
- `since_the_epoch` reads the wall clock. It is replaced by the `now` parameter. `sign_buffer_with_claims` reads the clock once per day offset; the model uses one reading for both.
- Signing.DaysFromNowToJwtTime: requires that `now + days * 86400` fits in a `u64`. The source would panic on overflow in a debug build and wrap around in a release build; neither is modelled.
- Signing.SignBufferWithClaims: inherits the same no-overflow requirement for both day offsets.
- Streaming.SliceReader.Read: models only the in-memory slice reader, the only reader the source passes to `sha256_digest`. A generic `Read` that returns short counts or fails is not modelled.
- The test's base64 fixture bytes and its `println!` are not modelled. The test's assertions are what `WasmProperties.EmbedThenExtract` states.
