/** Embedding a signed claims token into a WebAssembly module as a custom
    section named "jwt", and extracting and verifying it again against the
    module's canonical hash.

    The pieces this core calls but does not own are the parameters gathered
    in `Collaborators`: parity_wasm's parser and serialiser, SHA-256, the JWT
    codec, and Rust's UTF-8 conversions. What the proofs need of them is
    stated separately, as the predicates below `Collaborators`. */
module Wasm {
  import opened Types
  import opened Sections
  import Hex
  import Streaming

  /** Name of the custom section that carries the token. */
  const JWT_SECTION: string := "jwt"

  datatype Collaborators = Collaborators(
    /** `parity_wasm::deserialize_buffer`; `None` is a parse error. */
    deserialize: Bytes -> Option<seq<Section>>,
    /** `parity_wasm::serialize`; `None` is a serialisation error. */
    serialize: seq<Section> -> Option<Bytes>,
    /** SHA-256 of a whole byte string. */
    sha256: Bytes -> Digest,
    /** `Claims::encode`: sign the claims with the key pair. */
    encode: (Claims, KeyPair) -> Result<string, string>,
    /** `Claims::decode`: parse a token and check its signature. */
    decode: string -> Result<Claims, string>,
    /** `String::from_utf8`; `None` when the bytes are not UTF-8. */
    fromUtf8: Bytes -> Option<string>,
    /** `str::as_bytes`: the UTF-8 bytes of a string. */
    asBytes: string -> Bytes)

  /** Serialising `ss`, when it succeeds, gives bytes that parse back to `ss`. */
  ghost predicate ReadsBack(col: Collaborators, ss: seq<Section>) {
    col.serialize(ss).Some? ==> col.deserialize(col.serialize(ss).value) == Some(ss)
  }

  /** The parser reads back what the serialiser wrote, for every module the
      parser produced and for such a module with one custom section set or
      cleared. Nothing is claimed of other section lists (a non-custom
      section twice or out of order), which a conforming parser rejects. */
  ghost predicate ParsesWhatItWrites(col: Collaborators) {
    forall b | col.deserialize(b).Some? ::
      && ReadsBack(col, col.deserialize(b).value)
      && (forall name, payload :: ReadsBack(col, SetCustom(col.deserialize(b).value, name, payload)))
      && (forall name :: ReadsBack(col, ClearCustom(col.deserialize(b).value, name)))
  }

  /** A token the codec signed decodes to the claims that were signed. */
  ghost predicate DecodesWhatItSigns(col: Collaborators) {
    forall c, k :: col.encode(c, k).Ok? ==> col.decode(col.encode(c, k).value) == Ok(c)
  }

  /** The UTF-8 bytes of a string convert back to that string. */
  ghost predicate Utf8RoundTrips(col: Collaborators) {
    forall s :: col.fromUtf8(col.asBytes(s)) == Some(s)
  }

  ghost predicate Lawful(col: Collaborators) {
    ParsesWhatItWrites(col) && DecodesWhatItSigns(col) && Utf8RoundTrips(col)
  }

  /** The bytes the canonical hash is taken over: the module serialised
      with its "jwt" section cleared. */
  function CanonicalBytes(col: Collaborators, ss: seq<Section>): Option<Bytes> {
    col.serialize(ClearCustom(ss, JWT_SECTION))
  }

  /** `compute_hash_without_jwt`, as a value: the upper-case hex SHA-256 of
      the canonical bytes. */
  function CanonicalHash(col: Collaborators, ss: seq<Section>): (r: Outcome<string>)
    ensures r.Ok? ==> |r.value| == 64 && Hex.IsUpperHex(r.value)
    ensures r.Err? <==> CanonicalBytes(col, ss).None?
    ensures r.Err? ==> r.error == Wasm
  {
    match CanonicalBytes(col, ss)
    case None => Err(Wasm)
    case Some(bytes) => Ok(Hex.Encode(col.sha256(bytes)))
  }

  /** `compute_hash_without_jwt`: the section is cleared on a clone, so the
      caller's module is left as it was (the method modifies nothing). */
  method ComputeHashWithoutJwt(col: Collaborators, parsed: Module) returns (r: Outcome<string>)
    ensures r == CanonicalHash(col, parsed.sections)
  {
    var refmod := parsed.Clone();
    refmod.ClearCustomSection(JWT_SECTION);
    var modbytes := col.serialize(refmod.sections);
    if modbytes.None? {
      return Err(Wasm);
    }
    var digest, _ := Streaming.Sha256Digest(col.sha256, modbytes.value);
    r := Ok(Hex.Encode(digest));
  }

  /** `extract_claims`: `Ok(None)` when the module has no "jwt" section;
      otherwise the first such section's payload is read as UTF-8, decoded as
      a token, and accepted only if its `module_hash` equals the module's
      canonical hash. */
  function ExtractClaims(col: Collaborators, contents: Bytes): (r: Outcome<Option<Token>>)
    ensures r.Ok? && r.value.Some? ==>
              |r.value.value.claims.moduleHash| == 64 && Hex.IsUpperHex(r.value.value.claims.moduleHash)
  {
    match col.deserialize(contents)
    case None => Err(Wasm)
    case Some(ss) =>
      var sections := Payloads(ss, JWT_SECTION);
      if |sections| == 0 then Ok(None)
      else
        match col.fromUtf8(sections[0])
        case None => Err(Utf8)
        case Some(jwt) =>
          match col.decode(jwt)
          case Err(reason) => Err(Jwt(reason))
          case Ok(claims) =>
            match CanonicalHash(col, ss)
            case Err(e) => Err(e)
            case Ok(hash) =>
              if hash != claims.moduleHash then Err(InvalidModuleHash)
              else Ok(Some(Token(jwt, claims)))
  }

  /** The hash `embed_claims` signs: the SHA-256 of the original re-serialised
      as parsed. Unlike `CanonicalHash`, nothing is cleared first. */
  function EmbedHash(col: Collaborators, orig: Bytes): (r: Outcome<string>)
    ensures r.Ok? ==> |r.value| == 64 && Hex.IsUpperHex(r.value)
  {
    match col.deserialize(orig)
    case None => Err(Wasm)
    case Some(ss) =>
      match col.serialize(ss)
      case None => Err(Wasm)
      case Some(clean) => Ok(Hex.Encode(col.sha256(clean)))
  }

  /** The module `embed_claims` returns, as a value: the original with its
      "jwt" section set to the token that signs `claims` with `module_hash`
      replaced by `EmbedHash`. */
  function Embedded(col: Collaborators, orig: Bytes, claims: Claims, kp: KeyPair): Outcome<Bytes> {
    match EmbedHash(col, orig)
    case Err(e) => Err(e)
    case Ok(hash) =>
      match col.encode(claims.(moduleHash := hash), kp)
      case Err(reason) => Err(Jwt(reason))
      case Ok(encoded) =>
        match col.deserialize(orig)
        case None => Err(Wasm)
        case Some(ss) =>
          match col.serialize(SetCustom(ss, JWT_SECTION, col.asBytes(encoded)))
          case None => Err(Wasm)
          case Some(buf) => Ok(buf)
  }

  /** What `embed_claims` evidently intends: sign the CANONICAL hash of the
      original, the one extraction checks, rather than the hash of the
      original with any existing "jwt" section still in it. */
  function EmbeddedIntended(col: Collaborators, orig: Bytes, claims: Claims, kp: KeyPair): Outcome<Bytes> {
    match col.deserialize(orig)
    case None => Err(Wasm)
    case Some(ss) =>
      match CanonicalHash(col, ss)
      case Err(e) => Err(e)
      case Ok(hash) =>
        match col.encode(claims.(moduleHash := hash), kp)
        case Err(reason) => Err(Jwt(reason))
        case Ok(encoded) =>
          match col.serialize(SetCustom(ss, JWT_SECTION, col.asBytes(encoded)))
          case None => Err(Wasm)
          case Some(buf) => Ok(buf)
  }

  /** `embed_claims`. The caller's claims are a value and stay as they were;
      the signed copy differs from them only in `moduleHash`. */
  method EmbedClaims(col: Collaborators, orig: Bytes, claims: Claims, kp: KeyPair)
    returns (r: Outcome<Bytes>)
    ensures r == Embedded(col, orig, claims, kp)
  {
    var parsed := col.deserialize(orig);
    if parsed.None? {
      return Err(Wasm);
    }
    var cleanbytes := col.serialize(parsed.value);
    if cleanbytes.None? {
      return Err(Wasm);
    }
    var digest, _ := Streaming.Sha256Digest(col.sha256, cleanbytes.value);
    var signed := claims.(moduleHash := Hex.Encode(digest));
    var encoded := col.encode(signed, kp);
    if encoded.Err? {
      return Err(Jwt(encoded.error));
    }
    var encvec := col.asBytes(encoded.value);
    var reparsed := col.deserialize(orig);
    if reparsed.None? {
      return Err(Wasm);
    }
    var m := new Module(reparsed.value);
    m.SetCustomSection(JWT_SECTION, encvec);
    var buf := col.serialize(m.sections);
    if buf.None? {
      return Err(Wasm);
    }
    r := Ok(buf.value);
  }
}
