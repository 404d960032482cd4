/** Upper-case Base 16 (section 8 of RFC 4648), the `HEXUPPER` encoding the
    core uses to render a digest as text, with its decoder. */
module Hex {
  import opened Types

  const UPPER_DIGITS: string := "0123456789ABCDEF"

  predicate IsUpperHex(s: string) {
    forall i :: 0 <= i < |s| ==> s[i] in UPPER_DIGITS
  }

  function Digit(n: nat): (c: char)
    requires n < 16
    ensures c in UPPER_DIGITS
  {
    UPPER_DIGITS[n]
  }

  /** The value of one upper-case hex digit; lower-case and other characters
      are rejected. */
  function DigitValue(c: char): (r: Option<nat>)
    ensures r.Some? ==> r.value < 16 && Digit(r.value) == c
  {
    if '0' <= c <= '9' then Some(c as int - '0' as int)
    else if 'A' <= c <= 'F' then Some(c as int - 'A' as int + 10)
    else None
  }

  /** Each byte becomes two digits, high nibble first. */
  function Encode(bs: Bytes): (s: string)
    ensures |s| == 2 * |bs|
    ensures IsUpperHex(s)
  {
    if bs == [] then []
    else [Digit(bs[0] / 16), Digit(bs[0] % 16)] + Encode(bs[1..])
  }

  function Decode(s: string): Option<Bytes> {
    if |s| == 0 then Some([])
    else if |s| == 1 then None
    else
      var hi, lo, rest := DigitValue(s[0]), DigitValue(s[1]), Decode(s[2..]);
      if hi.Some? && lo.Some? && rest.Some?
      then Some([Combine(hi.value, lo.value)] + rest.value)
      else None
  }

  lemma DigitRoundTrip(n: nat)
    requires n < 16
    ensures DigitValue(Digit(n)) == Some(n)
  {
  }

  /** The byte whose high nibble is `hi` and low nibble `lo`. */
  function Combine(hi: nat, lo: nat): byte
    requires hi < 16 && lo < 16
  {
    hi * 16 + lo
  }

  lemma Nibbles(b: byte)
    ensures b / 16 < 16 && b % 16 < 16
    ensures Combine(b / 16, b % 16) == b
  {
  }

  /** Decoding two digits in front of an encoded tail. */
  lemma DecodeDigits(hi: nat, lo: nat, tail: string)
    requires hi < 16 && lo < 16
    ensures Decode([Digit(hi), Digit(lo)] + tail)
         == if Decode(tail).Some? then Some([Combine(hi, lo)] + Decode(tail).value) else None
  {
    var s := [Digit(hi), Digit(lo)] + tail;
    assert s[0] == Digit(hi) && s[1] == Digit(lo) && s[2..] == tail;
    DigitRoundTrip(hi);
    DigitRoundTrip(lo);
  }

  lemma {:induction false} DecodeEncode(bs: Bytes)
    ensures Decode(Encode(bs)) == Some(bs)
  {
    if bs != [] {
      DecodeEncode(bs[1..]);
      Nibbles(bs[0]);
      DecodeDigits(bs[0] / 16, bs[0] % 16, Encode(bs[1..]));
      assert [bs[0]] + bs[1..] == bs;
    }
  }

  /** Different digests never render to the same text. */
  lemma EncodeInjective(a: Bytes, b: Bytes)
    requires Encode(a) == Encode(b)
    ensures a == b
  {
    DecodeEncode(a);
    DecodeEncode(b);
  }

  /** A rendered SHA-256 digest is 64 upper-case hex digits, so it is never
      the empty string an unsigned claims object carries. */
  lemma DigestText(d: Digest)
    ensures |Encode(d)| == 2 * DIGEST_LENGTH == 64
    ensures IsUpperHex(Encode(d))
    ensures Encode(d) != ""
  {
  }
}
