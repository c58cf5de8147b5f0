/**
 Decoding of an ID token in the JWS Compact Serialization (section 7.1 of
 RFC 7515, section 7.2 of RFC 7519): three segments separated by '.',
 header, payload and signature.  A missing token and every malformed one are
 told apart; the unsecured form with an empty signature (section 3.6 of
 RFC 7518, "alg": "none") is refused as malformed.

 Base64url decoding (section 5 of RFC 4648) and JSON parsing of the header and
 payload segments are not modelled: they are the capability `parse`, which
 yields the parsed JSON object of type `J` or nothing.
 */
module IDTokenDecoding {
  import opened Wrappers
  import opened Segments

  const SEPARATOR: char := '.'

  /** The two decoding failures a validation can report. */
  datatype DecodingError = MissingToken | CannotDecode

  /**
   A decoded token: the three segments as received (the signature is checked
   over these, never over a re-serialisation) and the parsed header and payload.
   */
  datatype DecodedToken<J> = DecodedToken(
    rawHeader: string,
    rawPayload: string,
    signature: string,
    header: J,
    payload: J)

  /** A segment of the compact form contains no separator. */
  predicate IsSegment(s: string) {
    SEPARATOR !in s
  }

  /** The compact form: header, payload and signature joined by separators. */
  function Compact(header: string, payload: string, signature: string): string {
    header + [SEPARATOR] + payload + [SEPARATOR] + signature
  }

  /**
   The shape of a signed compact token, stated on characters: exactly two
   separators, and the token does not end with one (the signature is not empty).
   */
  predicate HasSignedShape(s: string) {
    Occurrences(s, SEPARATOR) == 2 && |s| > 0 && s[|s| - 1] != SEPARATOR
  }

  /** A token has the signed shape exactly when it splits into three segments the last of which is non-empty. */
  lemma SignedShapeIsThreeSegments(s: string)
    ensures var parts := Split(s, SEPARATOR);
      HasSignedShape(s) <==> |parts| == 3 && parts[2] != ""
  {
    LastEmpty(s, SEPARATOR);
  }

  /** Decodes an optional token string into its segments and parsed contents. */
  function Decode<J>(token: Option<string>, parse: string -> Option<J>): (r: Result<DecodedToken<J>, DecodingError>)
    ensures r == Failure(MissingToken) <==> token.None?
    ensures token.Some? && !HasSignedShape(token.value) ==> r == Failure(CannotDecode)
    ensures r.Success? ==>
      && token.Some?
      && HasSignedShape(token.value)
      && IsSegment(r.value.rawHeader) && IsSegment(r.value.rawPayload) && IsSegment(r.value.signature)
      && r.value.signature != ""
      && token.value == Compact(r.value.rawHeader, r.value.rawPayload, r.value.signature)
      && parse(r.value.rawHeader) == Some(r.value.header)
      && parse(r.value.rawPayload) == Some(r.value.payload)
  {
    match token
    case None => Failure(MissingToken)
    case Some(s) =>
      var parts := Split(s, SEPARATOR);
      SignedShapeIsThreeSegments(s);
      if |parts| != 3 || parts[2] == "" then
        Failure(CannotDecode)
      else
        JoinSplit(s, SEPARATOR);
        assert parts == [parts[0], parts[1], parts[2]];
        JoinThree(parts[0], parts[1], parts[2], SEPARATOR);
        match (parse(parts[0]), parse(parts[1]))
        case (Some(header), Some(payload)) =>
          Success(DecodedToken(parts[0], parts[1], parts[2], header, payload))
        case _ =>
          Failure(CannotDecode)
  }

  /**
   Every signed compact token is decoded into exactly the segments it was
   built from, unless the header or payload does not parse.
   */
  lemma {:induction false} DecodeCompact<J>(header: string, payload: string, signature: string, parse: string -> Option<J>)
    requires IsSegment(header) && IsSegment(payload) && IsSegment(signature)
    requires signature != ""
    ensures parse(header).Some? && parse(payload).Some? ==>
      Decode(Some(Compact(header, payload, signature)), parse)
        == Success(DecodedToken(header, payload, signature, parse(header).value, parse(payload).value))
    ensures parse(header).None? || parse(payload).None? ==>
      Decode(Some(Compact(header, payload, signature)), parse) == Failure(CannotDecode)
  {
    JoinThree(header, payload, signature, SEPARATOR);
    SplitJoin([header, payload, signature], SEPARATOR);
  }
}
