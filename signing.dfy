/** Signing a module from a handful of parameters: day offsets become epoch
    instants, the claims are assembled, and they are embedded. */
module Signing {
  import opened Types
  import opened Sections
  import opened Wasm
  import WasmProperties

  const SECS_PER_DAY: nat := 86400

  /** `days_from_now_to_jwt_time` with the clock reading `now` (seconds since
      the Unix epoch) passed in: a day count becomes the instant that many
      whole days after `now`. */
  function DaysFromNowToJwtTime(now: u64, stamp: Option<u64>): (r: Option<u64>)
    requires stamp.Some? ==> now + stamp.value * SECS_PER_DAY < U64_LIMIT
    ensures r.Some? <==> stamp.Some?
    ensures r.Some? ==>
              && now <= r.value
              && (r.value - now) % SECS_PER_DAY == 0
              && (r.value - now) / SECS_PER_DAY == stamp.value
  {
    match stamp
    case None => None
    case Some(days) => Some(now + days * SECS_PER_DAY)
  }

  /** A later day count never gives an earlier instant. */
  lemma DaysFromNowMonotone(now: u64, d1: u64, d2: u64)
    requires d1 <= d2
    requires now + d2 * SECS_PER_DAY < U64_LIMIT
    ensures DaysFromNowToJwtTime(now, Some(d1)).value <= DaysFromNowToJwtTime(now, Some(d2)).value
  {
  }

  /** The type of `Claims::with_dates`: issuer, subject, capabilities, tags,
      not-before and expiry. */
  type ClaimsBuilder = (string, string, Option<seq<string>>, Option<seq<string>>, Option<u64>, Option<u64>) -> Claims

  /** `sign_buffer_with_claims`: the claims are built by `withDates` (not part
      of this model) from the account key as issuer, the module key as
      subject, the capabilities and tags, and the not-before and expiry
      instants; they are then embedded, signed with the account key. When the
      buffer carried no token before, the result verifies and carries exactly
      those claims with the module hash filled in. */
  method SignBufferWithClaims(
    col: Collaborators,
    withDates: ClaimsBuilder,
    now: u64,
    buf: Bytes,
    modKp: KeyPair,
    acctKp: KeyPair,
    expiresInDays: Option<u64>,
    notBeforeDays: Option<u64>,
    caps: seq<string>,
    tags: seq<string>)
    returns (r: Outcome<Bytes>)
    requires notBeforeDays.Some? ==> now + notBeforeDays.value * SECS_PER_DAY < U64_LIMIT
    requires expiresInDays.Some? ==> now + expiresInDays.value * SECS_PER_DAY < U64_LIMIT
    ensures var claims := withDates(
              acctKp.publicKey, modKp.publicKey, Some(caps), Some(tags),
              DaysFromNowToJwtTime(now, notBeforeDays),
              DaysFromNowToJwtTime(now, expiresInDays));
            && r == Embedded(col, buf, claims, acctKp)
            && (Lawful(col) && r.Ok? && col.deserialize(buf).Some?
                && !HasCustom(col.deserialize(buf).value, JWT_SECTION) ==>
                  var x := ExtractClaims(col, r.value);
                  && x.Ok? && x.value.Some?
                  && x.value.value.claims == claims.(moduleHash := x.value.value.claims.moduleHash))
  {
    var claims := withDates(
      acctKp.publicKey,
      modKp.publicKey,
      Some(caps),
      Some(tags),
      DaysFromNowToJwtTime(now, notBeforeDays),
      DaysFromNowToJwtTime(now, expiresInDays));
    r := EmbedClaims(col, buf, claims, acctKp);
    if Lawful(col) && r.Ok? && col.deserialize(buf).Some? && !HasCustom(col.deserialize(buf).value, JWT_SECTION) {
      WasmProperties.EmbedThenExtract(col, buf, claims, acctKp, r.value);
    }
  }
}
