# Auth0 ID token validation: a Dafny model

This project models the ID token validation entry point of the Auth0 Swift
client, `validate(idToken:context:signatureValidator:claimsValidator:)`, as its
"sanity checks" specification pins it down. Validation is a short pipeline:

1. **Decode** an optional token string. An absent token is `MissingToken`.
   A present one must be in the JWS Compact Serialization (section 7.1 of
   RFC 7515, section 7.2 of RFC 7519): split at `.` into exactly three segments,
   the last of them (the signature) not empty. Every other shape is
   `CannotDecode`. That includes the unsecured form with an empty signature
   (section 3.6 of RFC 7518, `"alg": "none"`), which is never accepted.
   Base64url decoding (section 5 of RFC 4648) and JSON parsing of the header and
   payload are a capability `parse`. When it refuses a segment, the result is
   `CannotDecode` too.
2. **Verify the signature**: an arbitrary capability that returns no error or an error.
3. **Verify the claims**: an arbitrary capability that returns no error or an error.
4. **Combine** the stages. The first failure is the outcome, and exactly one
   outcome reaches the completion.

Modules:

- `Wrappers` (Wrappers.dfy): `Option` (Swift optionals) and `Result`.
- `Segments` (Segments.dfy): splitting at a separator the way Foundation's
  `components(separatedBy:)` does, and joining. Both round trips are proved.
- `IDTokenDecoding` (Decoding.dfy): `DecodingError`, `DecodedToken` and
  `Decode`. The accepted shape is also stated on characters (`HasSignedShape`:
  exactly two dots, and no dot at the end).
- `IDTokenValidation` (Validation.dfy): `ValidatorContext`, `ValidationError`,
  `Outcome` and `Validate`. It also holds the orchestrator as a state machine
  (`Decoding`, `VerifyingSignature`, `VerifyingClaims`, `Done`) and proofs that
  its runs agree with `Validate` and complete exactly once. In every run, a
  claims check comes straight after the signature check of the same token, and
  only when that check accepted the token.
- `IDTokenValidatorSpec` (ValidatorSpec.dfy): the shared test context and one
  lemma per check. Each lemma covers every signature and claims validator, so
  it covers the test doubles too.

The validator context is an immutable datatype. It carries the domain, client
id, key-set request, nonce, leeway (`60 * 1000` ms) and maximum age exactly as
supplied (`IDTokenValidatorSpec.CONTEXT`). `Validate` hands that same value to
both validators.

## Model

| member | source | states |
|---|---|---|
| `Segments.Split` | Auth0Tests/IDTokenValidatorSpec.swift:81-113 | a string with n dots has n + 1 components, and no component contains a dot |
| `Segments.JoinSplit` | Auth0Tests/IDTokenValidatorSpec.swift:81-113 | joining the components of any string with the separator gives the string back |
| `Segments.SplitJoin` | Auth0Tests/IDTokenValidatorSpec.swift:81-113 | splitting dot-free components joined by dots gives exactly those components |
| `Segments.LastEmpty` | Auth0Tests/IDTokenValidatorSpec.swift:92-100 | the last component is empty if and only if the string is empty or ends with the separator |
| `IDTokenDecoding.SignedShapeIsThreeSegments` | Auth0Tests/IDTokenValidatorSpec.swift:81-113 | a token has exactly two dots and no trailing dot if and only if it splits into three segments with a non-empty signature |
| `IDTokenDecoding.Decode` | Auth0Tests/IDTokenValidatorSpec.swift:54-113 | `MissingToken` if and only if the token is absent; a present token without the signed shape is `CannotDecode`; a success has dot-free segments with a non-empty signature that reassemble into the token, and header and payload parse to the decoded contents |
| `IDTokenDecoding.DecodeCompact` | Auth0Tests/IDTokenValidatorSpec.swift:81-113 | every header.payload.signature token with dot-free segments and a non-empty signature decodes to exactly those segments when both parse, and is `CannotDecode` otherwise |
| `IDTokenValidation.Validate` | Auth0Tests/IDTokenValidatorSpec.swift:48-113 | the outcome is `MissingToken` if and only if the token is absent; a decoding failure is the outcome whatever the validators say; a token is accepted only if it has the signed shape, decodes, and both validators accept it |
| `IDTokenValidation.SignatureFailureDominates` | Auth0Tests/IDTokenValidatorSpec.swift:50-60 | a rejected signature is the outcome, with the validator's error, whatever the claims validator says |
| `IDTokenValidation.ClaimsVerdictIsOutcome` | Auth0Tests/IDTokenValidatorSpec.swift:50-60 | after a good decode and signature, the outcome is the claims validator's verdict, unchanged |
| `IDTokenValidation.Step` | Auth0Tests/IDTokenValidatorSpec.swift:54-62 | each transition from a non-terminal phase moves strictly nearer to Done, and Done is terminal |
| `IDTokenValidation.Run` | Auth0Tests/IDTokenValidatorSpec.swift:54-62 | a run of n transitions has n + 1 phases, begins with the given phase, and each later phase is one transition after the one before it |
| `IDTokenValidation.StepConsistent` | Auth0Tests/IDTokenValidatorSpec.swift:54-62 | a transition keeps the phase consistent with the token: the token being checked is the decoded one, claims come only after a good signature, and Done carries the outcome of `Validate` |
| `IDTokenValidation.RunConsistent` | Auth0Tests/IDTokenValidatorSpec.swift:54-62 | every phase of a run that starts consistent stays consistent |
| `IDTokenValidation.DoneIsTerminal` | Auth0Tests/IDTokenValidatorSpec.swift:55-62 | once Done, a run keeps the same outcome and never calls the completion again |
| `IDTokenValidation.Terminates` | Auth0Tests/IDTokenValidatorSpec.swift:55-62 | from any phase, enough transitions reach Done; the run enters Done exactly once unless it started there |
| `IDTokenValidation.CompletesExactlyOnce` | Auth0Tests/IDTokenValidatorSpec.swift:55-62 | a validation run calls its completion exactly once, with the outcome of `Validate`, and every Done phase carries that same outcome |
| `IDTokenValidation.ClaimsOnlyAfterSignature` | Auth0Tests/IDTokenValidatorSpec.swift:50-60 | every claims phase comes immediately after a signature phase for the same token; claims are checked only for the decoded token and only when the signature validator accepted it; a token that does not decode reaches neither validator |
| `IDTokenValidatorSpec.FailsOnceWith` | Auth0Tests/IDTokenValidatorSpec.swift:66-79 | a decoding failure is reported as exactly that decoding error, once, and neither validator runs |
| `IDTokenValidatorSpec.NilToken` | Auth0Tests/IDTokenValidatorSpec.swift:54-63 | a nil token yields `MissingToken`, delivered once, for any validators |
| `IDTokenValidatorSpec.EmptyToken` | Auth0Tests/IDTokenValidatorSpec.swift:69-79 | the empty token yields `CannotDecode`, delivered once |
| `IDTokenValidatorSpec.FiveSegmentToken` | Auth0Tests/IDTokenValidatorSpec.swift:81-90 | `"a.b.c.d.e"` yields `CannotDecode`, delivered once |
| `IDTokenValidatorSpec.UnsignedToken` | Auth0Tests/IDTokenValidatorSpec.swift:92-100 | `"a.b."` (empty signature, the alg-none form) yields `CannotDecode`, delivered once |
| `IDTokenValidatorSpec.TwoSegmentToken` | Auth0Tests/IDTokenValidatorSpec.swift:103-113 | `"a.b"` yields `CannotDecode`, delivered once |

## Left out

- Base64url decoding and JSON parsing of the header and payload: they are the capability `parse`, because the checks exercise only the segment structure.
- IDTokenDecoding.Decode: the signature segment never goes through `parse`. A signature that is not valid base64url is therefore not `CannotDecode`; whether it is accepted is up to the signature validator.
- Empty header or payload segments are not rejected by the shape rule. Only the segment count and the non-empty signature are decided here; anything else is up to `parse`.
- Signature verification (RSA or HMAC, locating a key by key id, fetching the key set): an arbitrary function. Its code is not part of this model, and fetching keys is network I/O.
- The individual claim checks (issuer, subject, audience, authorized party, expiry, issued-at, nonce, auth time): an arbitrary function. Their code is not part of this model.
- The validators take the context as an argument, where the Swift validators capture it when they are built. Errors are tagged with the stage that raised them (`SignatureFailed`, `ClaimsFailed`); the Swift code passes the validators' errors through as they are. The "only if" half of `Validate`'s `MissingToken` clause rests on that tagging: in Swift, a validator that returned `missingToken` for a present token would look the same to the caller as a nil token.
- `Auth0.authentication(...)` and `jwks()`: the key-set request is kept only as a description (`JwksRequest`), because running it is network I/O.
- Asynchronous delivery (`waitUntil`, `done()`, callback queues): completion is the returned `Outcome`. "Called exactly once" is stated on the traces of the phase machine.
- The test doubles `MockIDTokenSignatureValidator` and `MockIDTokenClaimsValidator` are not part of this model; every lemma holds for any validators.
