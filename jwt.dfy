/**
 * The JWT library (PyJWT's `jwt.encode` / `jwt.decode` with HS256 and the
 * server's secret), replaced by a small deterministic codec so that tokens
 * stay strings, as they are in the routes and in the blacklist table.
 *
 * A token is `sub "." exp "." sig`, where `sig` stands for the HMAC of the
 * first two segments: a fixed function of them that only the codec computes.
 * Decoding checks the shape and the signature (InvalidTokenError), reads exp
 * as an integer (InvalidTokenError otherwise) and rejects a token with
 * exp <= now (ExpiredSignatureError), as PyJWT's expiry check does.
 */
module Jwt {
  import opened Wrappers
  import opened Numerals
  import opened Strings

  /** The payload {"sub": ..., "exp": ...} the application puts in every token. */
  datatype Claims = Claims(sub: string, exp: int)

  /** jwt.ExpiredSignatureError and jwt.InvalidTokenError. */
  datatype DecodeError = Expired | Invalid

  const SEPARATOR: char := '.'

  /** Stand-in for the keyed MAC: a checksum of the signed text. */
  function Digest(s: string): nat
    decreases |s|
  {
    if s == [] then 7 else (Digest(s[..|s| - 1]) * 31 + s[|s| - 1] as int) % 0x1_0000_0000
  }

  function Signature(signed: string): string {
    NatToString(Digest(signed))
  }

  function SignedPart(c: Claims): string {
    c.sub + [SEPARATOR] + IntToString(c.exp)
  }

  /** jwt.encode(payload, SECRET, algorithm="HS256"). */
  function Encode(c: Claims): string {
    SignedPart(c) + [SEPARATOR] + Signature(SignedPart(c))
  }

  /** jwt.decode(token, SECRET, algorithms=["HS256"]) at time `now` (seconds). */
  function Decode(token: string, now: int): Result<Claims, DecodeError> {
    var parts := Split(token, [SEPARATOR]);
    if |parts| != 3 || parts[2] != Signature(parts[0] + [SEPARATOR] + parts[1]) then Err(Invalid)
    else
      match ParseInt(parts[1])
      case None => Err(Invalid)
      case Some(exp) => if exp <= now then Err(Expired) else Ok(Claims(parts[0], exp))
  }

  lemma SignatureChars(signed: string)
    ensures SEPARATOR !in Signature(signed) && ' ' !in Signature(signed)
    ensures forall i :: 0 <= i < |Signature(signed)| ==> NumeralChar(Signature(signed)[i])
  {
    NatToStringDigits(Digest(signed));
  }

  /**
   * Decoding an encoded token gives its claims back while it is unexpired,
   * and ExpiredSignatureError from its expiry on.
   */
  lemma DecodeEncode(c: Claims, now: int)
    requires SEPARATOR !in c.sub
    ensures Decode(Encode(c), now) == if c.exp <= now then Err(Expired) else Ok(c)
  {
    var e := IntToString(c.exp);
    IntToStringChars(c.exp);
    assert SEPARATOR !in e;
    SignatureChars(SignedPart(c));
    SplitThree(c.sub, e, Signature(SignedPart(c)), SEPARATOR);
    IntRoundTrip(c.exp);
  }

  /** A token that decodes is the three segments it was split into, joined by dots. */
  lemma DecodedTokenSegments(token: string, now: int)
    requires Decode(token, now).Ok?
    ensures var parts := Split(token, [SEPARATOR]);
      |parts| == 3
      && token == parts[0] + [SEPARATOR] + parts[1] + [SEPARATOR] + parts[2]
      && parts[0] == Decode(token, now).value.sub
      && ParseInt(parts[1]) == Some(Decode(token, now).value.exp)
      && parts[2] == Signature(parts[0] + [SEPARATOR] + parts[1])
  {
    var parts := Split(token, [SEPARATOR]);
    JoinSplit(token, [SEPARATOR]);
    assert parts[1..][1..] == [parts[2]];
    assert Join(parts[1..], [SEPARATOR]) == parts[1] + [SEPARATOR] + parts[2];
    assert Join(parts, [SEPARATOR]) == parts[0] + [SEPARATOR] + (parts[1] + [SEPARATOR] + parts[2]);
  }

  /**
   * A token whose subject is an integer is made only of digits, minus signs
   * and dots: in particular it holds no space.
   */
  lemma NumericTokenChars(token: string, now: int)
    requires Decode(token, now).Ok? && ParseInt(Decode(token, now).value.sub).Some?
    ensures forall i :: 0 <= i < |token| ==> NumeralChar(token[i]) || token[i] == SEPARATOR
  {
    DecodedTokenSegments(token, now);
    var parts := Split(token, [SEPARATOR]);
    ParseIntChars(parts[0]);
    ParseIntChars(parts[1]);
    SignatureChars(parts[0] + [SEPARATOR] + parts[1]);
    var a, b, c := parts[0], parts[1], parts[2];
    forall i | 0 <= i < |token| ensures NumeralChar(token[i]) || token[i] == SEPARATOR {
      if i < |a| {
        assert token[i] == a[i];
      } else if i == |a| {
      } else if i < |a| + 1 + |b| {
        assert token[i] == b[i - |a| - 1];
      } else if i == |a| + 1 + |b| {
      } else {
        assert token[i] == c[i - |a| - |b| - 2];
      }
    }
  }
}
