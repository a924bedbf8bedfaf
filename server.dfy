/**
 * The demo attestation server as the object it is in attest/demo/server.go:
 * a `state` list of client records that each handler updates in place. Each
 * handler runs as one atomic step (the source holds the server lock for its
 * whole body) and is proved to produce exactly the transition ServerModel
 * defines, so the lemmas of ServerProperties describe it.
 */
module DemoServer {
  import opened Common
  import opened ServerModel

  /** The scan in `server.clientInfo`: position of the first record whose AIK
      public blob is byte-equal to `pub`, if any. */
  method FindClient(state: seq<ClientInfo>, pub: Bytes) returns (found: Option<nat>)
    ensures found.Some? ==> found.value < |state| && state[found.value].aik.public == pub
    ensures found.Some? ==> forall j :: 0 <= j < found.value ==> state[j].aik.public != pub
    ensures found.None? ==> forall j :: 0 <= j < |state| ==> state[j].aik.public != pub
    ensures found == FirstIndex(state, pub)
  {
    var i := 0;
    while i < |state|
      invariant 0 <= i <= |state|
      invariant forall j :: 0 <= j < i ==> state[j].aik.public != pub
    {
      if state[i].aik.public == pub {
        return Some(i);
      }
      i := i + 1;
    }
    return None;
  }

  class Server {
    /** `server.state`: one record per AIK the server has seen. */
    var state: seq<ClientInfo>

    ghost predicate Valid()
      reads this
    {
      UniqueKeys(state)
    }

    constructor ()
      ensures Valid() && state == []
    {
      state := [];
    }

    /** `server.clientInfo`: the position of the record for `pub`, appending a
        zero record for an unseen key. */
    method LookupClient(pub: Bytes) returns (i: nat)
      requires Valid()
      modifies this
      ensures Valid()
      ensures i < |state| && state[i].aik.public == pub
      ensures Lookup(state, i) == Resolve(old(state), pub)
    {
      var found := FindClient(state, pub);
      if found.Some? {
        return found.value;
      }
      state := state + [FreshClient(pub)];
      i := |state| - 1;
    }

    /** `activationGetChallenge`. */
    method ActivationGetChallenge(rd: RequestData, parseEk: EkParser, generate: ChallengeGenerator) returns (reply: Reply)
      requires Valid()
      modifies this
      ensures Valid()
      ensures Transition(state, reply) == ChallengeTransition(old(state), rd, parseEk, generate)
    {
      var ek := parseEk(rd.ekPem);
      if ek.Err? {
        return InternalError;
      }
      var generated := generate(ActivationParameters(rd.tpmVersion, ek.value, rd.aik));
      if generated.Err? {
        return InternalError;
      }
      var ch := generated.value;
      var i := LookupClient(rd.aik.public);
      state := state[i := state[i].(aik := rd.aik, activationSecret := ch.secret, ek := Some(ek.value), activated := false)];
      reply := Respond(ResponseData(Some(ch.credential), []));
    }

    /** `activate`. */
    method Activate(rd: RequestData) returns (reply: Reply)
      requires Valid()
      modifies this
      ensures Valid()
      ensures Transition(state, reply) == ActivateTransition(old(state), rd)
    {
      var i := LookupClient(rd.aik.public);
      var c := state[i];
      if |c.activationSecret| == 0 || c.activationSecret != rd.decryptedCredential {
        return ActivationFailed;
      }
      state := state[i := c.(activated := true)];
      reply := Respond(EmptyResponse);
    }

    /** `getNonce`, where `n` is what was read from the random source. */
    method GetNonce(rd: RequestData, n: Bytes) returns (reply: Reply)
      requires Valid()
      requires |n| == NonceLength
      modifies this
      ensures Valid()
      ensures Transition(state, reply) == NonceTransition(old(state), rd, n)
    {
      var i := LookupClient(rd.aik.public);
      state := state[i := state[i].(nonce := n)];
      reply := Respond(ResponseData(None, n));
    }

    /** `attest`. */
    method Attest(rd: RequestData, verifyQuote: QuoteVerifier) returns (reply: Reply)
      requires Valid()
      modifies this
      ensures Valid()
      ensures Transition(state, reply) == AttestTransition(old(state), rd, verifyQuote)
    {
      var i := LookupClient(rd.aik.public);
      var c := state[i];
      var verification := verifyQuote(rd.tpmVersion, rd.aik.public, rd.quote.quote, rd.quote.signature, rd.pcrs, c.nonce);
      if verification.Err? {
        return InternalError;
      }
      state := state[i := c.(attestResults := Some(verification.value))];
      reply := Respond(EmptyResponse);
    }
  }
}
