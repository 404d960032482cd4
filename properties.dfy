/** What the embed/verify protocol guarantees, and where it falls short. */
module WasmProperties {
  import opened Types
  import opened Sections
  import opened Wasm
  import Hex

  /** A module without a "jwt" section yields "no token", not an error, and
      a module with one never does. */
  lemma AbsentTokenIsNotAnError(col: Collaborators, contents: Bytes, ss: seq<Section>)
    requires col.deserialize(contents) == Some(ss)
    ensures ExtractClaims(col, contents) == Ok(None) <==> !HasCustom(ss, JWT_SECTION)
  {
  }

  /** A first "jwt" payload that is not UTF-8 fails before the token codec
      or the hash are consulted: the outcome is `Utf8` whatever they do. */
  lemma Utf8CheckedFirst(
    col: Collaborators, contents: Bytes, ss: seq<Section>,
    decode: string -> Result<Claims, string>,
    serialize: seq<Section> -> Option<Bytes>,
    sha256: Bytes -> Digest)
    requires col.deserialize(contents) == Some(ss)
    requires HasCustom(ss, JWT_SECTION)
    requires col.fromUtf8(Payloads(ss, JWT_SECTION)[0]).None?
    ensures ExtractClaims(col, contents) == Err(Utf8)
    ensures ExtractClaims(col.(decode := decode, serialize := serialize, sha256 := sha256), contents)
         == Err(Utf8)
  {
  }

  /** Once the first "jwt" payload has decoded to a signed token, the hash
      comparison alone decides: `InvalidModuleHash` exactly when the declared
      hash differs from the canonical one, and otherwise the token with the
      raw payload text and the decoded claims, unchanged. */
  lemma HashComparisonDecides(
    col: Collaborators, contents: Bytes, ss: seq<Section>, jwt: string, claims: Claims)
    requires col.deserialize(contents) == Some(ss)
    requires HasCustom(ss, JWT_SECTION)
    requires col.fromUtf8(Payloads(ss, JWT_SECTION)[0]) == Some(jwt)
    requires col.decode(jwt) == Ok(claims)
    requires CanonicalBytes(col, ss).Some?
    ensures ExtractClaims(col, contents) == Err(InvalidModuleHash)
        <==> CanonicalHash(col, ss).value != claims.moduleHash
    ensures ExtractClaims(col, contents) == Ok(Some(Token(jwt, claims)))
        <==> CanonicalHash(col, ss).value == claims.moduleHash
  {
  }

  /** `InvalidModuleHash` comes from the hash comparison and nowhere else. */
  lemma InvalidModuleHashOnlyOnMismatch(col: Collaborators, contents: Bytes)
    requires ExtractClaims(col, contents) == Err(InvalidModuleHash)
    ensures col.deserialize(contents).Some?
    ensures var ss := col.deserialize(contents).value;
            && HasCustom(ss, JWT_SECTION)
            && col.fromUtf8(Payloads(ss, JWT_SECTION)[0]).Some?
            && col.decode(col.fromUtf8(Payloads(ss, JWT_SECTION)[0]).value).Ok?
            && CanonicalHash(col, ss).Ok?
            && CanonicalHash(col, ss).value
               != col.decode(col.fromUtf8(Payloads(ss, JWT_SECTION)[0]).value).value.moduleHash
  {
  }

  /** A token that extraction returns is the text of the FIRST "jwt"
      section, the codec accepted it, and its declared hash is the module's
      canonical hash. */
  lemma AcceptedTokenIsGenuine(col: Collaborators, contents: Bytes, t: Token)
    requires ExtractClaims(col, contents) == Ok(Some(t))
    ensures col.deserialize(contents).Some?
    ensures var ss := col.deserialize(contents).value;
            && HasCustom(ss, JWT_SECTION)
            && col.fromUtf8(Payloads(ss, JWT_SECTION)[0]) == Some(t.jwt)
            && col.decode(t.jwt) == Ok(t.claims)
            && CanonicalHash(col, ss) == Ok(t.claims.moduleHash)
  {
  }

  /** The canonical hash does not see the token: setting the "jwt" section
      to any payload, whether it replaces one or adds one, leaves the hash as
      it was. In particular two modules that differ only in that payload
      hash the same. */
  lemma CanonicalHashIgnoresToken(col: Collaborators, ss: seq<Section>, payload: Bytes)
    ensures CanonicalHash(col, SetCustom(ss, JWT_SECTION, payload)) == CanonicalHash(col, ss)
  {
    ClearAfterSet(ss, JWT_SECTION, payload);
  }

  /** A token accepted on two modules with the same declared hash binds
      their canonical bytes to the same SHA-256 digest: moving a token to a
      module whose content (outside the "jwt" section) differs is accepted
      only through a SHA-256 collision. */
  lemma AcceptedTokenBindsDigest(col: Collaborators, b1: Bytes, b2: Bytes, t1: Token, t2: Token)
    requires ExtractClaims(col, b1) == Ok(Some(t1))
    requires ExtractClaims(col, b2) == Ok(Some(t2))
    requires t1.claims.moduleHash == t2.claims.moduleHash
    ensures col.deserialize(b1).Some? && col.deserialize(b2).Some?
    ensures var c1 := CanonicalBytes(col, col.deserialize(b1).value);
            var c2 := CanonicalBytes(col, col.deserialize(b2).value);
            c1.Some? && c2.Some? && col.sha256(c1.value) == col.sha256(c2.value)
  {
    AcceptedTokenIsGenuine(col, b1, t1);
    AcceptedTokenIsGenuine(col, b2, t2);
    var c1 := CanonicalBytes(col, col.deserialize(b1).value).value;
    var c2 := CanonicalBytes(col, col.deserialize(b2).value).value;
    Hex.EncodeInjective(col.sha256(c1), col.sha256(c2));
  }

  /** Tamper detection: if two modules differ outside their "jwt" section
      and extraction accepts a token on each declaring the same hash, then
      two different byte strings have one SHA-256 digest. So a module
      changed outside the section is accepted under a token made for the
      other only through a SHA-256 collision. */
  lemma TamperNeedsCollision(col: Collaborators, b1: Bytes, b2: Bytes, t1: Token, t2: Token)
    requires ParsesWhatItWrites(col)
    requires ExtractClaims(col, b1) == Ok(Some(t1))
    requires ExtractClaims(col, b2) == Ok(Some(t2))
    requires t1.claims.moduleHash == t2.claims.moduleHash
    requires col.deserialize(b1).Some? && col.deserialize(b2).Some?
    requires ClearCustom(col.deserialize(b1).value, JWT_SECTION)
             != ClearCustom(col.deserialize(b2).value, JWT_SECTION)
    ensures var c1 := CanonicalBytes(col, col.deserialize(b1).value);
            var c2 := CanonicalBytes(col, col.deserialize(b2).value);
            && c1.Some? && c2.Some?
            && c1.value != c2.value
            && col.sha256(c1.value) == col.sha256(c2.value)
  {
    AcceptedTokenBindsDigest(col, b1, b2, t1, t2);
    var ss1 := col.deserialize(b1).value;
    var ss2 := col.deserialize(b2).value;
    if CanonicalBytes(col, ss1).value == CanonicalBytes(col, ss2).value {
      SerializeInjective(col, ClearCustom(ss1, JWT_SECTION), ClearCustom(ss2, JWT_SECTION));
    }
  }

  /** The copy `embed_claims` signs carries, as `moduleHash`, 64 upper-case
      hex digits (so never the empty hash of unsigned claims) and differs
      from the caller's claims in nothing else. */
  lemma EmbedSignsHashedCopy(col: Collaborators, orig: Bytes, claims: Claims, kp: KeyPair, out: Bytes)
    requires Embedded(col, orig, claims, kp) == Ok(out)
    ensures EmbedHash(col, orig).Ok?
    ensures var hash := EmbedHash(col, orig).value;
            && |hash| == 64 && Hex.IsUpperHex(hash) && hash != ""
            && col.encode(claims.(moduleHash := hash), kp).Ok?
  {
  }

  /** The serialiser never maps two different modules that it reads back
      to the same bytes. */
  lemma SerializeInjective(col: Collaborators, a: seq<Section>, b: seq<Section>)
    requires ReadsBack(col, a) && ReadsBack(col, b)
    requires col.serialize(a).Some? && col.serialize(b).Some?
    requires col.serialize(a) == col.serialize(b)
    ensures a == b
  {
  }

  /** The module `embed_claims` returns parses back to the original with its
      "jwt" section set to the signed token, and extraction finds that
      token. */
  lemma EmbeddedCarriesToken(col: Collaborators, orig: Bytes, claims: Claims, kp: KeyPair, out: Bytes)
    requires Lawful(col)
    requires Embedded(col, orig, claims, kp) == Ok(out)
    ensures col.deserialize(orig).Some? && EmbedHash(col, orig).Ok?
    ensures var signed := claims.(moduleHash := EmbedHash(col, orig).value);
            var ss := col.deserialize(orig).value;
            && col.encode(signed, kp).Ok?
            && col.deserialize(out) == Some(SetCustom(ss, JWT_SECTION, col.asBytes(col.encode(signed, kp).value)))
            && Payloads(col.deserialize(out).value, JWT_SECTION)[0] == col.asBytes(col.encode(signed, kp).value)
            && col.fromUtf8(Payloads(col.deserialize(out).value, JWT_SECTION)[0]) == Some(col.encode(signed, kp).value)
            && col.decode(col.encode(signed, kp).value) == Ok(signed)
  {
    var ss := col.deserialize(orig).value;
    var signed := claims.(moduleHash := EmbedHash(col, orig).value);
    var tok := col.encode(signed, kp).value;
    var withToken := SetCustom(ss, JWT_SECTION, col.asBytes(tok));
    assert col.serialize(withToken) == Some(out);
    assert col.deserialize(col.serialize(withToken).value) == Some(withToken);
    assert col.fromUtf8(col.asBytes(tok)) == Some(tok);
    assert col.decode(col.encode(signed, kp).value) == Ok(signed);
  }

  /** Round trip: embedding into a module that carries no "jwt" section and
      extracting again returns the signed token, whose claims are the
      caller's with `moduleHash` filled in, so issuer and capabilities are
      preserved and the hash is a fresh 64-digit one. */
  lemma EmbedThenExtract(col: Collaborators, orig: Bytes, claims: Claims, kp: KeyPair, out: Bytes)
    requires Lawful(col)
    requires Embedded(col, orig, claims, kp) == Ok(out)
    requires col.deserialize(orig).Some? && !HasCustom(col.deserialize(orig).value, JWT_SECTION)
    ensures EmbedHash(col, orig).Ok?
    ensures var signed := claims.(moduleHash := EmbedHash(col, orig).value);
            && col.encode(signed, kp).Ok?
            && ExtractClaims(col, out) == Ok(Some(Token(col.encode(signed, kp).value, signed)))
    ensures var t := ExtractClaims(col, out).value.value;
            && t.claims.issuer == claims.issuer
            && t.claims.caps == claims.caps
            && |t.claims.moduleHash| == 64
            && (claims.moduleHash == "" ==> t.claims.moduleHash != claims.moduleHash)
  {
    EmbeddedCarriesToken(col, orig, claims, kp, out);
    var ss := col.deserialize(orig).value;
    var signed := claims.(moduleHash := EmbedHash(col, orig).value);
    var tok := col.encode(signed, kp).value;
    CanonicalHashIgnoresToken(col, ss, col.asBytes(tok));
    ClearAbsent(ss, JWT_SECTION);
    assert CanonicalHash(col, ss) == EmbedHash(col, orig);
  }

  /** The corrected embedding round-trips for EVERY original, including one
      that already carries a "jwt" section: extraction returns the token that
      signs the caller's claims with the canonical hash filled in. */
  lemma IntendedEmbedThenExtract(col: Collaborators, orig: Bytes, claims: Claims, kp: KeyPair, out: Bytes)
    requires Lawful(col)
    requires EmbeddedIntended(col, orig, claims, kp) == Ok(out)
    ensures col.deserialize(orig).Some? && CanonicalHash(col, col.deserialize(orig).value).Ok?
    ensures var signed := claims.(moduleHash := CanonicalHash(col, col.deserialize(orig).value).value);
            && col.encode(signed, kp).Ok?
            && ExtractClaims(col, out) == Ok(Some(Token(col.encode(signed, kp).value, signed)))
  {
    var ss := col.deserialize(orig).value;
    var signed := claims.(moduleHash := CanonicalHash(col, ss).value);
    var tok := col.encode(signed, kp).value;
    var withToken := SetCustom(ss, JWT_SECTION, col.asBytes(tok));
    assert ReadsBack(col, withToken);
    assert col.deserialize(out) == Some(withToken);
    assert col.fromUtf8(col.asBytes(tok)) == Some(tok);
    assert col.decode(tok) == Ok(signed);
    CanonicalHashIgnoresToken(col, ss, col.asBytes(tok));
  }

  /** Where the round trip breaks: `embed_claims` hashes the original with
      any existing "jwt" section in it, while extraction hashes it with that
      section cleared. Re-signing an already signed module therefore
      verifies only if SHA-256 maps two different byte strings to one
      digest. */
  lemma ResignNeedsCollision(col: Collaborators, orig: Bytes, claims: Claims, kp: KeyPair, out: Bytes)
    requires Lawful(col)
    requires Embedded(col, orig, claims, kp) == Ok(out)
    requires col.deserialize(orig).Some? && HasCustom(col.deserialize(orig).value, JWT_SECTION)
    requires ExtractClaims(col, out).Ok?
    ensures var ss := col.deserialize(orig).value;
            && col.serialize(ss).Some? && CanonicalBytes(col, ss).Some?
            && col.serialize(ss).value != CanonicalBytes(col, ss).value
            && col.sha256(col.serialize(ss).value) == col.sha256(CanonicalBytes(col, ss).value)
  {
    EmbeddedCarriesToken(col, orig, claims, kp, out);
    var ss := col.deserialize(orig).value;
    var signed := claims.(moduleHash := EmbedHash(col, orig).value);
    var tok := col.encode(signed, kp).value;
    CanonicalHashIgnoresToken(col, ss, col.asBytes(tok));
    var clean := col.serialize(ss).value;
    var canonical := CanonicalBytes(col, ss).value;
    Hex.EncodeInjective(col.sha256(clean), col.sha256(canonical));
    if clean == canonical {
      SerializeInjective(col, ss, ClearCustom(ss, JWT_SECTION));
    }
  }
}
