/**
 The "sanity checks" of the ID token validator: each check validates one
 token with the shared context and arbitrary signature and claims validators
 (the test doubles), and expects one decoding error, delivered once.
 */
module IDTokenValidatorSpec {
  import opened Wrappers
  import opened Segments
  import opened IDTokenDecoding
  import opened IDTokenValidation

  const DOMAIN := "tokens-test.auth0.com"
  const CLIENT_ID := "tokens-test-123"
  const NONCE := "a1b2c3d4e5"
  /** One minute, in milliseconds. */
  const LEEWAY := 60 * 1000
  const MAX_AGE := 1000

  /** The context every check validates with; the key-set request is the client's for the test tenant. */
  const CONTEXT := ValidatorContext(DOMAIN, CLIENT_ID, JwksRequest(CLIENT_ID, DOMAIN), Some(NONCE), LEEWAY, Some(MAX_AGE))

  /**
   A token that fails to decode with `reason` is reported with exactly that
   reason, the completion is called once, and neither validator is reached.
   */
  lemma {:induction false} FailsOnceWith<J, E>(
    idToken: Option<string>,
    reason: DecodingError,
    parse: string -> Option<J>,
    signatureValidator: (ValidatorContext, DecodedToken<J>) -> Option<E>,
    claimsValidator: (ValidatorContext, DecodedToken<J>) -> Option<E>)
    requires Decode(idToken, parse) == Failure(reason)
    ensures Validate(idToken, CONTEXT, parse, signatureValidator, claimsValidator) == Invalid(DecodingFailed(reason))
    ensures var trace := Run(Pipeline(CONTEXT, parse, signatureValidator, claimsValidator), Decoding(idToken), 3);
      && Completions(trace) == 1
      && trace[3] == Done(Invalid(DecodingFailed(reason)))
      && forall i :: 0 <= i < |trace| ==> !trace[i].VerifyingSignature? && !trace[i].VerifyingClaims?
  {
    var p := Pipeline(CONTEXT, parse, signatureValidator, claimsValidator);
    CompletesExactlyOnce(p, idToken, 3);
    ClaimsOnlyAfterSignature(p, idToken, 3);
  }

  /** "should fail to validate a nil id token" */
  lemma NilToken<J, E>(
    parse: string -> Option<J>,
    signatureValidator: (ValidatorContext, DecodedToken<J>) -> Option<E>,
    claimsValidator: (ValidatorContext, DecodedToken<J>) -> Option<E>)
    ensures Validate(None, CONTEXT, parse, signatureValidator, claimsValidator) == Invalid(DecodingFailed(MissingToken))
    ensures Completions(Run(Pipeline(CONTEXT, parse, signatureValidator, claimsValidator), Decoding(None), 3)) == 1
  {
    FailsOnceWith(None, MissingToken, parse, signatureValidator, claimsValidator);
  }

  /** "should fail to decode an empty id token" */
  lemma EmptyToken<J, E>(
    parse: string -> Option<J>,
    signatureValidator: (ValidatorContext, DecodedToken<J>) -> Option<E>,
    claimsValidator: (ValidatorContext, DecodedToken<J>) -> Option<E>)
    ensures Validate(Some(""), CONTEXT, parse, signatureValidator, claimsValidator) == Invalid(DecodingFailed(CannotDecode))
    ensures Completions(Run(Pipeline(CONTEXT, parse, signatureValidator, claimsValidator), Decoding(Some("")), 3)) == 1
  {
    assert !HasSignedShape("");
    FailsOnceWith(Some(""), CannotDecode, parse, signatureValidator, claimsValidator);
  }

  /** "should fail to decode a malformed id token": five segments */
  lemma FiveSegmentToken<J, E>(
    parse: string -> Option<J>,
    signatureValidator: (ValidatorContext, DecodedToken<J>) -> Option<E>,
    claimsValidator: (ValidatorContext, DecodedToken<J>) -> Option<E>)
    ensures Validate(Some("a.b.c.d.e"), CONTEXT, parse, signatureValidator, claimsValidator) == Invalid(DecodingFailed(CannotDecode))
    ensures Completions(Run(Pipeline(CONTEXT, parse, signatureValidator, claimsValidator), Decoding(Some("a.b.c.d.e")), 3)) == 1
  {
    assert Occurrences("a.b.c.d.e", SEPARATOR) == 4 by {
      assert "a.b.c.d.e" == ['a', '.', 'b', '.', 'c', '.', 'd', '.', 'e'];
    }
    FailsOnceWith(Some("a.b.c.d.e"), CannotDecode, parse, signatureValidator, claimsValidator);
  }

  /** "should fail to decode a malformed id token": empty signature, the unsecured ("alg": "none") form */
  lemma UnsignedToken<J, E>(
    parse: string -> Option<J>,
    signatureValidator: (ValidatorContext, DecodedToken<J>) -> Option<E>,
    claimsValidator: (ValidatorContext, DecodedToken<J>) -> Option<E>)
    ensures Validate(Some("a.b."), CONTEXT, parse, signatureValidator, claimsValidator) == Invalid(DecodingFailed(CannotDecode))
    ensures Completions(Run(Pipeline(CONTEXT, parse, signatureValidator, claimsValidator), Decoding(Some("a.b.")), 3)) == 1
  {
    assert !HasSignedShape("a.b.");
    FailsOnceWith(Some("a.b."), CannotDecode, parse, signatureValidator, claimsValidator);
  }

  /** "should fail to decode an id token that's missing the signature" */
  lemma TwoSegmentToken<J, E>(
    parse: string -> Option<J>,
    signatureValidator: (ValidatorContext, DecodedToken<J>) -> Option<E>,
    claimsValidator: (ValidatorContext, DecodedToken<J>) -> Option<E>)
    ensures Validate(Some("a.b"), CONTEXT, parse, signatureValidator, claimsValidator) == Invalid(DecodingFailed(CannotDecode))
    ensures Completions(Run(Pipeline(CONTEXT, parse, signatureValidator, claimsValidator), Decoding(Some("a.b")), 3)) == 1
  {
    assert Occurrences("a.b", SEPARATOR) == 1 by {
      assert "a.b" == ['a', '.', 'b'];
    }
    FailsOnceWith(Some("a.b"), CannotDecode, parse, signatureValidator, claimsValidator);
  }
}
