/** Values shared by the embed/verify protocol: bytes, the error kinds of the
    crate, the claims carried in a signed token, and the token itself. */
module Types {

  type byte = x: int | 0 <= x < 256

  type Bytes = seq<byte>

  const U64_LIMIT: int := 0x1_0000_0000_0000_0000

  /** Rust's `u64`. */
  type u64 = x: int | 0 <= x < U64_LIMIT

  /** Length in bytes of a SHA-256 digest (FIPS 180-4). */
  const DIGEST_LENGTH: nat := 32

  /** A finished SHA-256 digest: always 32 bytes. */
  type Digest = d: Bytes | |d| == DIGEST_LENGTH witness seq(32, i => 0)

  datatype Option<+T> = None | Some(value: T)

  datatype Result<+T, +E> = Ok(value: T) | Err(error: E)

  /** The error kinds the core can return. `Wasm` is what a parity_wasm
      parse or serialisation error becomes, `Utf8` a payload that is not
      UTF-8, `Jwt` any failure reported by the token codec (malformed token,
      bad signature, signing failure), `Io` a read error while hashing (which
      a read from an in-memory slice never raises), `InvalidModuleHash` the
      tamper signal. */
  datatype ErrorKind = Wasm | Utf8 | Io | Jwt(reason: string) | InvalidModuleHash

  type Outcome<T> = Result<T, ErrorKind>

  /** The claims signed into a module. Timestamps are seconds since the Unix
      epoch; `moduleHash` is the upper-case hex digest of the module. */
  datatype Claims = Claims(
    moduleHash: string,
    expires: Option<u64>,
    id: string,
    issuedAt: u64,
    issuer: string,
    subject: string,
    notBefore: Option<u64>,
    tags: Option<seq<string>>,
    caps: Option<seq<string>>)

  /** A successfully verified token: the raw JWT text and its decoded claims. */
  datatype Token = Token(jwt: string, claims: Claims)

  /** An nkeys key pair; the secret part is opaque to this core. */
  datatype KeyPair = KeyPair(publicKey: string, secret: Bytes)
}
