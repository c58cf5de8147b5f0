/**
 The ID token validation entry point: decode, then verify the signature, then
 verify the claims, stopping at the first failure and delivering exactly one
 outcome.

 Signature verification (key-set retrieval and the cryptography) and the claim
 checks are capabilities passed in: each is an arbitrary function from the
 context and the decoded token to no error (`None`) or an error of type `E`.
 The production validators and the test doubles are both instances of them.
 */
module IDTokenValidation {
  import opened Wrappers
  import opened IDTokenDecoding

  /** The request for the provider's key set; carrying it out is network I/O and is not modelled. */
  datatype JwksRequest = JwksRequest(clientId: string, domain: string)

  /**
   The immutable configuration of one validation: the provider domain (whence
   the expected issuer), the client id (the expected audience), the key-set
   request, the expected nonce, the clock-skew leeway in milliseconds and the
   maximum authentication age.
   */
  datatype ValidatorContext = ValidatorContext(
    domain: string,
    clientId: string,
    jwksRequest: JwksRequest,
    nonce: Option<string>,
    leeway: int,
    maxAge: Option<int>)

  /** What a failed validation reports, by the stage that failed. */
  datatype ValidationError<E> =
    | DecodingFailed(reason: DecodingError)
    | SignatureFailed(cause: E)
    | ClaimsFailed(cause: E)

  /** The single outcome delivered to the caller's completion. */
  datatype Outcome<E> = Valid | Invalid(error: ValidationError<E>)

  /** Validates an optional ID token: decode, then signature, then claims, short-circuiting. */
  function Validate<J, E>(
    idToken: Option<string>,
    context: ValidatorContext,
    parse: string -> Option<J>,
    signatureValidator: (ValidatorContext, DecodedToken<J>) -> Option<E>,
    claimsValidator: (ValidatorContext, DecodedToken<J>) -> Option<E>): (r: Outcome<E>)
    // a missing token is reported as exactly that, and nothing else is
    ensures r == Invalid(DecodingFailed(MissingToken)) <==> idToken.None?
    // a decoding failure is reported whatever the two validators would say
    ensures Decode(idToken, parse).Failure? ==> r == Invalid(DecodingFailed(Decode(idToken, parse).error))
    // a token is accepted only if it is signed and both validators accept it
    ensures r == Valid ==>
      && idToken.Some?
      && HasSignedShape(idToken.value)
      && Decode(idToken, parse).Success?
      && signatureValidator(context, Decode(idToken, parse).value).None?
      && claimsValidator(context, Decode(idToken, parse).value).None?
  {
    match Decode(idToken, parse)
    case Failure(e) => Invalid(DecodingFailed(e))
    case Success(jwt) =>
      match signatureValidator(context, jwt)
      case Some(e) => Invalid(SignatureFailed(e))
      case None =>
        match claimsValidator(context, jwt)
        case Some(e) => Invalid(ClaimsFailed(e))
        case None => Valid
  }

  /** A signature failure is reported whatever the claims validator would say. */
  lemma SignatureFailureDominates<J, E>(
    idToken: Option<string>,
    context: ValidatorContext,
    parse: string -> Option<J>,
    signatureValidator: (ValidatorContext, DecodedToken<J>) -> Option<E>,
    claimsValidator: (ValidatorContext, DecodedToken<J>) -> Option<E>,
    e: E)
    requires Decode(idToken, parse).Success?
    requires signatureValidator(context, Decode(idToken, parse).value) == Some(e)
    ensures Validate(idToken, context, parse, signatureValidator, claimsValidator) == Invalid(SignatureFailed(e))
  {
  }

  /** With a well-formed signed token and a good signature, the claims validator's verdict is the outcome, unchanged. */
  lemma ClaimsVerdictIsOutcome<J, E>(
    idToken: Option<string>,
    context: ValidatorContext,
    parse: string -> Option<J>,
    signatureValidator: (ValidatorContext, DecodedToken<J>) -> Option<E>,
    claimsValidator: (ValidatorContext, DecodedToken<J>) -> Option<E>)
    requires Decode(idToken, parse).Success?
    requires signatureValidator(context, Decode(idToken, parse).value).None?
    ensures var verdict := claimsValidator(context, Decode(idToken, parse).value);
      Validate(idToken, context, parse, signatureValidator, claimsValidator)
        == if verdict.Some? then Invalid(ClaimsFailed(verdict.value)) else Valid
  {
  }

  /**
   The orchestrator as a state machine: Decoding, then VerifyingSignature,
   then VerifyingClaims, then Done with the outcome.  Done is terminal.
   */
  datatype Phase<J, E> =
    | Decoding(idToken: Option<string>)
    | VerifyingSignature(jwt: DecodedToken<J>)
    | VerifyingClaims(jwt: DecodedToken<J>)
    | Done(outcome: Outcome<E>)

  /** What one validation runs with, besides the token. */
  datatype Pipeline<!J, E> = Pipeline(
    context: ValidatorContext,
    parse: string -> Option<J>,
    signatureValidator: (ValidatorContext, DecodedToken<J>) -> Option<E>,
    claimsValidator: (ValidatorContext, DecodedToken<J>) -> Option<E>)

  /** One transition of the machine. */
  function Step<J, E>(p: Pipeline<J, E>, phase: Phase<J, E>): (next: Phase<J, E>)
    ensures !phase.Done? ==> Remaining(next) < Remaining(phase)
    ensures phase.Done? ==> next == phase
  {
    match phase
    case Decoding(idToken) =>
      (match Decode(idToken, p.parse)
       case Failure(e) => Done(Invalid(DecodingFailed(e)))
       case Success(jwt) => VerifyingSignature(jwt))
    case VerifyingSignature(jwt) =>
      (match p.signatureValidator(p.context, jwt)
       case Some(e) => Done(Invalid(SignatureFailed(e)))
       case None => VerifyingClaims(jwt))
    case VerifyingClaims(jwt) =>
      (match p.claimsValidator(p.context, jwt)
       case Some(e) => Done(Invalid(ClaimsFailed(e)))
       case None => Done(Valid))
    case Done(_) => phase
  }

  /** The most transitions a phase is from Done. */
  function Remaining<J, E>(phase: Phase<J, E>): nat {
    match phase
    case Decoding(_) => 3
    case VerifyingSignature(_) => 2
    case VerifyingClaims(_) => 1
    case Done(_) => 0
  }

  /** The phases the machine passes through in `fuel` transitions from `phase`. */
  function Run<J, E>(p: Pipeline<J, E>, phase: Phase<J, E>, fuel: nat): (trace: seq<Phase<J, E>>)
    ensures |trace| == fuel + 1 && trace[0] == phase
    ensures forall k :: 0 < k <= fuel ==> trace[k] == Step(p, trace[k - 1])
    decreases fuel
  {
    if fuel == 0 then [phase]
    else
      var tail := Run(p, Step(p, phase), fuel - 1);
      [phase] + tail
  }

  /** How often a trace enters Done, i.e. how often the completion is called. */
  function Completions<J, E>(trace: seq<Phase<J, E>>): nat
    decreases |trace|
  {
    if |trace| < 2 then 0
    else (if !trace[0].Done? && trace[1].Done? then 1 else 0) + Completions(trace[1..])
  }

  /**
   What a phase reached from `Decoding(idToken)` knows: the token it works on
   is the decoded `idToken`, claims are verified only once the signature of
   that same token has been, and Done carries the outcome of `Validate`.
   */
  ghost predicate Consistent<J, E>(p: Pipeline<J, E>, idToken: Option<string>, phase: Phase<J, E>) {
    match phase
    case Decoding(t) => t == idToken
    case VerifyingSignature(jwt) => Decode(idToken, p.parse) == Success(jwt)
    case VerifyingClaims(jwt) =>
      Decode(idToken, p.parse) == Success(jwt) && p.signatureValidator(p.context, jwt).None?
    case Done(o) => o == Validate(idToken, p.context, p.parse, p.signatureValidator, p.claimsValidator)
  }

  /** Each transition keeps the machine consistent with `Validate`. */
  lemma StepConsistent<J, E>(p: Pipeline<J, E>, idToken: Option<string>, phase: Phase<J, E>)
    requires Consistent(p, idToken, phase)
    ensures Consistent(p, idToken, Step(p, phase))
  {
  }

  /** Every phase of a run that starts consistent is consistent. */
  lemma {:induction false} RunConsistent<J, E>(p: Pipeline<J, E>, idToken: Option<string>, phase: Phase<J, E>, fuel: nat)
    requires Consistent(p, idToken, phase)
    ensures forall i :: 0 <= i < |Run(p, phase, fuel)| ==> Consistent(p, idToken, Run(p, phase, fuel)[i])
    decreases fuel
  {
    if fuel > 0 {
      StepConsistent(p, idToken, phase);
      RunConsistent(p, idToken, Step(p, phase), fuel - 1);
      var tail := Run(p, Step(p, phase), fuel - 1);
      assert Run(p, phase, fuel) == [phase] + tail;
      forall i | 0 < i < |Run(p, phase, fuel)|
        ensures Consistent(p, idToken, Run(p, phase, fuel)[i])
      {
        assert Run(p, phase, fuel)[i] == tail[i - 1];
      }
    }
  }

  /** Once the machine is Done it stays Done with the same outcome and completes no more. */
  lemma {:induction false} DoneIsTerminal<J, E>(p: Pipeline<J, E>, outcome: Outcome<E>, fuel: nat)
    ensures forall i :: 0 <= i < |Run(p, Done(outcome), fuel)| ==> Run(p, Done(outcome), fuel)[i] == Done(outcome)
    ensures Completions(Run(p, Done(outcome), fuel)) == 0
    decreases fuel
  {
    if fuel > 0 {
      DoneIsTerminal(p, outcome, fuel - 1);
      var trace := Run(p, Done(outcome), fuel);
      assert trace == [Done(outcome)] + Run(p, Done(outcome), fuel - 1);
      assert trace[1..] == Run(p, Done(outcome), fuel - 1);
    }
  }

  /** Given enough transitions, the machine reaches Done, having entered it exactly once unless it began there. */
  lemma {:induction false} Terminates<J, E>(p: Pipeline<J, E>, phase: Phase<J, E>, fuel: nat)
    requires fuel >= Remaining(phase)
    ensures Run(p, phase, fuel)[fuel].Done?
    ensures Completions(Run(p, phase, fuel)) == if phase.Done? then 0 else 1
    decreases fuel
  {
    if phase.Done? {
      DoneIsTerminal(p, phase.outcome, fuel);
    } else {
      var next := Step(p, phase);
      Terminates(p, next, fuel - 1);
      var tail := Run(p, next, fuel - 1);
      var trace := Run(p, phase, fuel);
      assert trace == [phase] + tail;
      assert trace[1..] == tail;
      assert trace[fuel] == tail[fuel - 1];
      assert Completions(trace) == (if next.Done? then 1 else 0) + Completions(tail);
    }
  }

  /**
   From `Decoding(idToken)`, three transitions or more end in `Done` with the
   outcome of `Validate`; the completion is called exactly once, and every
   Done phase of the run carries that same outcome.
   */
  lemma CompletesExactlyOnce<J, E>(p: Pipeline<J, E>, idToken: Option<string>, fuel: nat)
    requires fuel >= 3
    ensures var trace := Run(p, Decoding(idToken), fuel);
      && Completions(trace) == 1
      && trace[fuel] == Done(Validate(idToken, p.context, p.parse, p.signatureValidator, p.claimsValidator))
      && forall i :: 0 <= i < |trace| && trace[i].Done? ==> trace[i] == trace[fuel]
  {
    Terminates(p, Decoding(idToken), fuel);
    RunConsistent(p, idToken, Decoding(idToken), fuel);
  }

  /**
   Claims are verified only for the token decoded from `idToken`, and only
   right after the phase that verified the signature of that same token,
   which accepted it; a token that does not decode reaches neither validator.
   */
  lemma ClaimsOnlyAfterSignature<J, E>(p: Pipeline<J, E>, idToken: Option<string>, fuel: nat)
    ensures var trace := Run(p, Decoding(idToken), fuel);
      forall i :: 0 <= i < |trace| && trace[i].VerifyingClaims? ==>
        0 < i && trace[i - 1] == VerifyingSignature(trace[i].jwt)
    ensures var trace := Run(p, Decoding(idToken), fuel);
      forall i :: 0 <= i < |trace| && trace[i].VerifyingClaims? ==>
        && Decode(idToken, p.parse) == Success(trace[i].jwt)
        && p.signatureValidator(p.context, trace[i].jwt).None?
    ensures var trace := Run(p, Decoding(idToken), fuel);
      Decode(idToken, p.parse).Failure? ==>
        forall i :: 0 <= i < |trace| ==> trace[i].Decoding? || trace[i].Done?
  {
    RunConsistent(p, idToken, Decoding(idToken), fuel);
    var trace := Run(p, Decoding(idToken), fuel);
    forall i | 0 <= i < |trace| && trace[i].VerifyingClaims?
      ensures 0 < i && trace[i - 1] == VerifyingSignature(trace[i].jwt)
    {
      // only VerifyingSignature(jwt) steps to VerifyingClaims(jwt), and the run starts at Decoding
      assert i != 0;
    }
  }
}
