/**
 * Values and pure transitions of the remote-attestation demo server
 * (attest/demo/server.go). The server keeps one `ClientInfo` per AIK public
 * blob in a list; each RPC handler finds or creates the record for the
 * requesting AIK and updates some of its fields. HTTP decoding, logging and
 * the lock are outside the model; the cryptographic steps are oracles passed
 * in by the caller.
 */
module ServerModel {
  import opened Common

  /** `attest.TPMVersion`, carried through to the oracles untouched. */
  type TpmVersion = int

  /** `attest.AttestationParameters`: the AIK public blob by which records
      are keyed, and its proof-of-origin fields (creation data, attestation,
      signature), carried here as one opaque blob. */
  datatype AttestationParameters = AttestationParameters(public: Bytes, proof: Bytes)

  /** `*rsa.PublicKey` of the endorsement key. */
  datatype RsaPublicKey = RsaPublicKey(modulus: nat, exponent: int)

  /** `attest.EncryptedCredential`: the challenge sent back to the client. */
  datatype EncryptedCredential = EncryptedCredential(blob: Bytes)

  /** `attest.ActivationParameters` as built by the challenge handler. */
  datatype ActivationParameters = ActivationParameters(tpmVersion: TpmVersion, ek: RsaPublicKey, aik: AttestationParameters)

  /** What a successful `ActivationParameters.Generate` yields: the expected
      plaintext secret and the encrypted challenge. */
  datatype Challenge = Challenge(secret: Bytes, credential: EncryptedCredential)

  /** `attest.Quote`. */
  datatype Quote = Quote(quote: Bytes, signature: Bytes)

  /** `vpb.QuoteVerificationResults`, produced by the quote-verifier oracle. */
  datatype QuoteVerificationResults = QuoteVerificationResults(succeeded: bool, signatureMismatch: bool, pcrDigestMismatch: bool)

  /** `requestData`, already decoded from the request body. */
  datatype RequestData = RequestData(
    tpmVersion: TpmVersion,
    aik: AttestationParameters,
    ekPem: Bytes,
    decryptedCredential: Bytes,
    quote: Quote,
    pcrs: map<nat, Bytes>)

  /** `responseData`; a zero `ActivationChallenge` is `None`. */
  datatype ResponseData = ResponseData(activationChallenge: Option<EncryptedCredential>, nonce: Bytes)

  /** What a handler writes back: a JSON body or an `http.Error`. */
  datatype Reply = Respond(body: ResponseData) | HttpError(status: int, message: string)

  const EmptyResponse: ResponseData := ResponseData(None, [])
  const InternalError: Reply := HttpError(500, "Internal server error")
  const ActivationFailed: Reply := HttpError(400, "Activation failed")

  /** Length of the nonce `getNonce` issues. */
  const NonceLength: nat := 32

  /** `requestData.EKPublic`: PEM and PKCS#1 decoding of the EK. */
  type EkParser = Bytes -> Result<RsaPublicKey, string>
  /** `ActivationParameters.Generate`. */
  type ChallengeGenerator = ActivationParameters -> Result<Challenge, string>
  /** `verifier.VerifyQuote(version, aikPublic, quote, signature, pcrs, nonce)`. */
  type QuoteVerifier = (TpmVersion, Bytes, Bytes, Bytes, map<nat, Bytes>, Bytes) -> Result<QuoteVerificationResults, string>

  /** `clientInfo`: the server's state about one AIK. */
  datatype ClientInfo = ClientInfo(
    aik: AttestationParameters,
    ek: Option<RsaPublicKey>,
    activationSecret: Bytes,
    activated: bool,
    nonce: Bytes,
    attestResults: Option<QuoteVerificationResults>)

  /** The record `clientInfo` appends for an unseen key: `AIK.Public = pub`,
      every other field zero. */
  function FreshClient(pub: Bytes): ClientInfo
  {
    ClientInfo(AttestationParameters(pub, []), None, [], false, [], None)
  }

  /** No two records share an AIK public blob. */
  ghost predicate UniqueKeys(state: seq<ClientInfo>)
  {
    forall i, j :: 0 <= i < j < |state| ==> state[i].aik.public != state[j].aik.public
  }

  /** Position of the first record whose AIK public blob is byte-equal to `pub`. */
  function FirstIndex(state: seq<ClientInfo>, pub: Bytes): (r: Option<nat>)
    ensures r.Some? ==> r.value < |state| && state[r.value].aik.public == pub
    ensures r.Some? ==> forall j :: 0 <= j < r.value ==> state[j].aik.public != pub
    ensures r.None? <==> forall j :: 0 <= j < |state| ==> state[j].aik.public != pub
    decreases |state|
  {
    if |state| == 0 then None
    else if state[0].aik.public == pub then Some(0)
    else match FirstIndex(state[1..], pub)
      case None => None
      case Some(i) => Some(i + 1)
  }

  /** The record `clientInfo(pub)` hands to a handler: the stored one, or the
      zero record it would append. */
  function Current(state: seq<ClientInfo>, pub: Bytes): ClientInfo
  {
    match FirstIndex(state, pub)
    case Some(i) => state[i]
    case None => FreshClient(pub)
  }

  /** A state after `clientInfo`, with the position of the returned record. */
  datatype Lookup = Lookup(state: seq<ClientInfo>, index: nat)

  /** `server.clientInfo(pub)`: find the record by byte equality, or append a
      fresh one. */
  function Resolve(state: seq<ClientInfo>, pub: Bytes): (r: Lookup)
    ensures r.index < |r.state| && r.state[r.index] == Current(state, pub)
    ensures r.state[r.index].aik.public == pub
    ensures forall j :: 0 <= j < r.index ==> r.state[j].aik.public != pub
    ensures |state| <= |r.state| <= |state| + 1 && r.state[..|state|] == state
    ensures |r.state| == |state| + 1 <==> forall j :: 0 <= j < |state| ==> state[j].aik.public != pub
    ensures UniqueKeys(state) ==> UniqueKeys(r.state)
  {
    match FirstIndex(state, pub)
    case Some(i) => Lookup(state, i)
    case None => Lookup(state + [FreshClient(pub)], |state|)
  }

  /** A handler's effect: the new state and the reply it writes. */
  datatype Transition = Transition(state: seq<ClientInfo>, reply: Reply)

  /** The checks `activationGetChallenge` makes before it touches any state:
      decode the EK, then generate the challenge for it and the AIK. */
  function PrepareChallenge(rd: RequestData, parseEk: EkParser, generate: ChallengeGenerator): (r: Result<(RsaPublicKey, Challenge), string>)
    ensures r.Err? <==> parseEk(rd.ekPem).Err? || generate(ActivationParameters(rd.tpmVersion, parseEk(rd.ekPem).value, rd.aik)).Err?
    ensures r.Ok? ==> parseEk(rd.ekPem) == Ok(r.value.0) && generate(ActivationParameters(rd.tpmVersion, r.value.0, rd.aik)) == Ok(r.value.1)
  {
    match parseEk(rd.ekPem)
    case Err(e) => Err(e)
    case Ok(ek) =>
      match generate(ActivationParameters(rd.tpmVersion, ek, rd.aik))
      case Err(e) => Err(e)
      case Ok(ch) => Ok((ek, ch))
  }

  /** `activationGetChallenge`. */
  function ChallengeTransition(state: seq<ClientInfo>, rd: RequestData, parseEk: EkParser, generate: ChallengeGenerator): (r: Transition)
    ensures r.reply.HttpError? <==> PrepareChallenge(rd, parseEk, generate).Err?
    ensures r.reply.HttpError? ==> r == Transition(state, InternalError)
    ensures r.reply.Respond? ==> r.reply.body == ResponseData(Some(PrepareChallenge(rd, parseEk, generate).value.1.credential), [])
    ensures |state| <= |r.state| <= |state| + 1
    ensures forall j :: 0 <= j < |state| && state[j].aik.public != rd.aik.public ==> r.state[j] == state[j]
    ensures UniqueKeys(state) ==> UniqueKeys(r.state)
  {
    match PrepareChallenge(rd, parseEk, generate)
    case Err(_) => Transition(state, InternalError)
    case Ok((ek, ch)) =>
      var l := Resolve(state, rd.aik.public);
      var c := l.state[l.index].(aik := rd.aik, activationSecret := ch.secret, ek := Some(ek), activated := false);
      Transition(l.state[l.index := c], Respond(ResponseData(Some(ch.credential), [])))
  }

  /** The acceptance test of `activate`: a challenge was issued and the
      decrypted credential is byte-equal to its secret. */
  predicate SecretMatches(c: ClientInfo, credential: Bytes)
  {
    |c.activationSecret| != 0 && c.activationSecret == credential
  }

  /** `activate`. */
  function ActivateTransition(state: seq<ClientInfo>, rd: RequestData): (r: Transition)
    ensures r.reply == Respond(EmptyResponse) <==> SecretMatches(Current(state, rd.aik.public), rd.decryptedCredential)
    ensures r.reply != Respond(EmptyResponse) ==> r == Transition(Resolve(state, rd.aik.public).state, ActivationFailed)
    ensures |state| <= |r.state| <= |state| + 1
    ensures forall j :: 0 <= j < |state| && state[j].aik.public != rd.aik.public ==> r.state[j] == state[j]
    ensures UniqueKeys(state) ==> UniqueKeys(r.state)
  {
    var l := Resolve(state, rd.aik.public);
    var c := l.state[l.index];
    if !SecretMatches(c, rd.decryptedCredential) then Transition(l.state, ActivationFailed)
    else Transition(l.state[l.index := c.(activated := true)], Respond(EmptyResponse))
  }

  /** `getNonce`, with `n` the 32 bytes read from the random source. */
  function NonceTransition(state: seq<ClientInfo>, rd: RequestData, n: Bytes): (r: Transition)
    requires |n| == NonceLength
    ensures r.reply == Respond(ResponseData(None, n))
    ensures |state| <= |r.state| <= |state| + 1
    ensures forall j :: 0 <= j < |state| && state[j].aik.public != rd.aik.public ==> r.state[j] == state[j]
    ensures UniqueKeys(state) ==> UniqueKeys(r.state)
  {
    var l := Resolve(state, rd.aik.public);
    Transition(l.state[l.index := l.state[l.index].(nonce := n)], Respond(ResponseData(None, n)))
  }

  /** The `VerifyQuote` call `attest` makes for a request against a record. */
  function QuoteCheck(rd: RequestData, c: ClientInfo, verifyQuote: QuoteVerifier): Result<QuoteVerificationResults, string>
  {
    verifyQuote(rd.tpmVersion, rd.aik.public, rd.quote.quote, rd.quote.signature, rd.pcrs, c.nonce)
  }

  /** `attest`. */
  function AttestTransition(state: seq<ClientInfo>, rd: RequestData, verifyQuote: QuoteVerifier): (r: Transition)
    ensures r.reply.Respond? <==> QuoteCheck(rd, Current(state, rd.aik.public), verifyQuote).Ok?
    ensures r.reply.HttpError? ==> r == Transition(Resolve(state, rd.aik.public).state, InternalError)
    ensures |state| <= |r.state| <= |state| + 1
    ensures forall j :: 0 <= j < |state| && state[j].aik.public != rd.aik.public ==> r.state[j] == state[j]
    ensures UniqueKeys(state) ==> UniqueKeys(r.state)
  {
    var l := Resolve(state, rd.aik.public);
    var c := l.state[l.index];
    match QuoteCheck(rd, c, verifyQuote)
    case Err(_) => Transition(l.state, InternalError)
    case Ok(q) => Transition(l.state[l.index := c.(attestResults := Some(q))], Respond(EmptyResponse))
  }
}
