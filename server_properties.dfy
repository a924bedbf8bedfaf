/**
 * What the demo server's handlers promise, proved about the pure
 * transitions of ServerModel: which record each handler touches and which of
 * its fields change, when activation succeeds, that failures commit nothing,
 * and that keys stay unique.
 */
module ServerProperties {
  import opened Common
  import opened ServerModel

  /** `after` differs from `before` at most in the record for `pub`, which may
      have been appended; no record changes its key. */
  ghost predicate OnlyKeyChanged(before: seq<ClientInfo>, after: seq<ClientInfo>, pub: Bytes)
  {
    && |before| <= |after| <= |before| + 1
    && (|after| == |before| + 1 ==> FirstIndex(before, pub).None? && after[|before|].aik.public == pub)
    && (forall j :: 0 <= j < |before| ==> after[j].aik.public == before[j].aik.public)
    && (forall j :: 0 <= j < |before| && before[j].aik.public != pub ==> after[j] == before[j])
  }

  /** Writing a record with the same key at the position `clientInfo` returned
      changes nothing else, keeps keys unique, and is what a later lookup of
      that key sees. */
  lemma UpdateResolved(state: seq<ClientInfo>, pub: Bytes, c: ClientInfo)
    requires c.aik.public == pub
    ensures var l := Resolve(state, pub);
            var after := l.state[l.index := c];
            && OnlyKeyChanged(state, after, pub)
            && Current(after, pub) == c
            && (UniqueKeys(state) ==> UniqueKeys(after))
  {
    var l := Resolve(state, pub);
    var after := l.state[l.index := c];
    var k := FirstIndex(after, pub);
    assert after[l.index].aik.public == pub;
    assert forall j :: 0 <= j < l.index ==> after[j] == l.state[j];
  }

  /** Looking a key up without changing its record leaves the lookup's view
      of that key as it was. */
  lemma ResolveOnly(state: seq<ClientInfo>, pub: Bytes)
    ensures var l := Resolve(state, pub);
            && OnlyKeyChanged(state, l.state, pub)
            && Current(l.state, pub) == Current(state, pub)
  {
    var l := Resolve(state, pub);
    UpdateResolved(state, pub, l.state[l.index]);
    assert l.state[l.index := l.state[l.index]] == l.state;
  }

  /** `activationGetChallenge`: a failure to decode the EK or to generate the
      challenge commits nothing, and `clientInfo` is never reached; on success
      only the requester's record changes, taking the new AIK, EK and secret
      with `Activated` reset, while `Nonce` and `AttestResults` are kept. */
  lemma ChallengeOutcome(state: seq<ClientInfo>, rd: RequestData, parseEk: EkParser, generate: ChallengeGenerator)
    ensures var t := ChallengeTransition(state, rd, parseEk, generate);
            var p := PrepareChallenge(rd, parseEk, generate);
            && (t.reply == InternalError <==> p.Err?)
            && (p.Err? ==> t.state == state)
            && (p.Ok? ==>
                  var c0 := Current(state, rd.aik.public);
                  var c := Current(t.state, rd.aik.public);
                  && OnlyKeyChanged(state, t.state, rd.aik.public)
                  && t.reply == Respond(ResponseData(Some(p.value.1.credential), []))
                  && c.aik == rd.aik && c.ek == Some(p.value.0)
                  && c.activationSecret == p.value.1.secret && !c.activated
                  && c.nonce == c0.nonce && c.attestResults == c0.attestResults)
  {
    var p := PrepareChallenge(rd, parseEk, generate);
    if p.Ok? {
      var (ek, ch) := p.value;
      var l := Resolve(state, rd.aik.public);
      UpdateResolved(state, rd.aik.public, l.state[l.index].(aik := rd.aik, activationSecret := ch.secret, ek := Some(ek), activated := false));
    }
  }

  /** `activate` succeeds exactly when a challenge secret is stored and the
      decrypted credential is byte-equal to it; success sets `Activated`,
      failure leaves it as it was, and the secret is never cleared. */
  lemma ActivateOutcome(state: seq<ClientInfo>, rd: RequestData)
    ensures var t := ActivateTransition(state, rd);
            var c0 := Current(state, rd.aik.public);
            var ok := |c0.activationSecret| != 0 && c0.activationSecret == rd.decryptedCredential;
            && t.reply == (if ok then Respond(EmptyResponse) else ActivationFailed)
            && OnlyKeyChanged(state, t.state, rd.aik.public)
            && Current(t.state, rd.aik.public) == c0.(activated := c0.activated || ok)
  {
    var l := Resolve(state, rd.aik.public);
    var c := l.state[l.index];
    if SecretMatches(c, rd.decryptedCredential) {
      UpdateResolved(state, rd.aik.public, c.(activated := true));
    } else {
      ResolveOnly(state, rd.aik.public);
    }
  }

  /** `getNonce` replaces the requester's `Nonce` with the 32 issued bytes,
      returns them, and changes no other field or record. */
  lemma NonceOutcome(state: seq<ClientInfo>, rd: RequestData, n: Bytes)
    requires |n| == NonceLength
    ensures var t := NonceTransition(state, rd, n);
            var c0 := Current(state, rd.aik.public);
            && t.reply == Respond(ResponseData(None, n))
            && OnlyKeyChanged(state, t.state, rd.aik.public)
            && Current(t.state, rd.aik.public) == c0.(nonce := n)
            && |Current(t.state, rd.aik.public).nonce| == 32
  {
    var l := Resolve(state, rd.aik.public);
    UpdateResolved(state, rd.aik.public, l.state[l.index].(nonce := n));
  }

  /** `attest` verifies the quote against the nonce stored for the key; if the
      verifier errs nothing beyond `clientInfo`'s lookup is committed,
      otherwise only `AttestResults` is set. The nonce is not cleared and
      `Activated` is neither required nor changed. */
  lemma AttestOutcome(state: seq<ClientInfo>, rd: RequestData, verifyQuote: QuoteVerifier)
    ensures var t := AttestTransition(state, rd, verifyQuote);
            var c0 := Current(state, rd.aik.public);
            var v := verifyQuote(rd.tpmVersion, rd.aik.public, rd.quote.quote, rd.quote.signature, rd.pcrs, c0.nonce);
            && OnlyKeyChanged(state, t.state, rd.aik.public)
            && (v.Err? ==> t.reply == InternalError && Current(t.state, rd.aik.public) == c0)
            && (v.Ok? ==> t.reply == Respond(EmptyResponse)
                          && Current(t.state, rd.aik.public) == c0.(attestResults := Some(v.value)))
  {
    var l := Resolve(state, rd.aik.public);
    var c := l.state[l.index];
    match QuoteCheck(rd, c, verifyQuote)
    case Err(_) => ResolveOnly(state, rd.aik.public);
    case Ok(q) => UpdateResolved(state, rd.aik.public, c.(attestResults := Some(q)));
  }

  /** `activate`, `getNonce` and `attest` look the key up before any check, so
      a request for an unseen key appends exactly one record for it even when
      the handler then fails; a first activation always fails. */
  lemma FirstContactAppends(state: seq<ClientInfo>, rd: RequestData, n: Bytes, verifyQuote: QuoteVerifier)
    requires FirstIndex(state, rd.aik.public).None?
    requires |n| == NonceLength
    ensures var t := ActivateTransition(state, rd);
            && t.reply == ActivationFailed
            && t.state == state + [FreshClient(rd.aik.public)]
    ensures |NonceTransition(state, rd, n).state| == |state| + 1
    ensures var t := AttestTransition(state, rd, verifyQuote);
            && |t.state| == |state| + 1
            && t.state[..|state|] == state
            && (t.reply == InternalError <==> QuoteCheck(rd, FreshClient(rd.aik.public), verifyQuote).Err?)
  {
    ActivateOutcome(state, rd);
    var l := Resolve(state, rd.aik.public);
    assert l.state[l.index] == FreshClient(rd.aik.public);
  }

  /** Every handler keeps the keys of the record list pairwise distinct; the
      challenge handler's `c.AIK = rd.AIK` does too, since the record was found
      by `rd.AIK.Public`. */
  lemma HandlersPreserveUniqueKeys(state: seq<ClientInfo>, rd: RequestData, parseEk: EkParser, generate: ChallengeGenerator, n: Bytes, verifyQuote: QuoteVerifier)
    requires UniqueKeys(state)
    requires |n| == NonceLength
    ensures UniqueKeys(ChallengeTransition(state, rd, parseEk, generate).state)
    ensures UniqueKeys(ActivateTransition(state, rd).state)
    ensures UniqueKeys(NonceTransition(state, rd, n).state)
    ensures UniqueKeys(AttestTransition(state, rd, verifyQuote).state)
  {
    var pub := rd.aik.public;
    var l := Resolve(state, pub);
    var c := l.state[l.index];
    var p := PrepareChallenge(rd, parseEk, generate);
    if p.Ok? {
      UpdateResolved(state, pub, c.(aik := rd.aik, activationSecret := p.value.1.secret, ek := Some(p.value.0), activated := false));
    }
    UpdateResolved(state, pub, c.(activated := true));
    UpdateResolved(state, pub, c.(nonce := n));
    match QuoteCheck(rd, c, verifyQuote)
    case Err(_) =>
    case Ok(q) => UpdateResolved(state, pub, c.(attestResults := Some(q)));
  }

  /** Re-submitting the correct secret succeeds again and changes nothing more. */
  lemma ActivateIdempotent(state: seq<ClientInfo>, rd: RequestData)
    requires SecretMatches(Current(state, rd.aik.public), rd.decryptedCredential)
    ensures var t1 := ActivateTransition(state, rd);
            var t2 := ActivateTransition(t1.state, rd);
            && t1.reply == Respond(EmptyResponse)
            && t2 == t1
  {
    var pub := rd.aik.public;
    var l := Resolve(state, pub);
    var t1 := ActivateTransition(state, rd);
    UpdateResolved(state, pub, l.state[l.index].(activated := true));
    var l2 := Resolve(t1.state, pub);
    assert l2 == Lookup(t1.state, l.index);
    assert t1.state[l.index := t1.state[l.index].(activated := true)] == t1.state;
  }

  /** Once activated, a key stays activated whatever credential is submitted. */
  lemma ActivationSticky(state: seq<ClientInfo>, rd: RequestData)
    requires Current(state, rd.aik.public).activated
    ensures Current(ActivateTransition(state, rd).state, rd.aik.public).activated
  {
    ActivateOutcome(state, rd);
  }

  /** A new challenge supersedes the old one: afterwards the key is not
      activated, and only the new secret activates it. */
  lemma ChallengeSupersedes(state: seq<ClientInfo>, rd: RequestData, parseEk: EkParser, generate: ChallengeGenerator, attempt: RequestData)
    requires PrepareChallenge(rd, parseEk, generate).Ok?
    requires attempt.aik.public == rd.aik.public
    ensures var s1 := ChallengeTransition(state, rd, parseEk, generate).state;
            var secret := PrepareChallenge(rd, parseEk, generate).value.1.secret;
            var t := ActivateTransition(s1, attempt);
            && !Current(s1, rd.aik.public).activated
            && (t.reply == Respond(EmptyResponse) <==> |secret| != 0 && attempt.decryptedCredential == secret)
            && Current(t.state, rd.aik.public).activated == (t.reply == Respond(EmptyResponse))
  {
    var s1 := ChallengeTransition(state, rd, parseEk, generate).state;
    ChallengeOutcome(state, rd, parseEk, generate);
    ActivateOutcome(s1, attempt);
  }

  /** The end-to-end activation scenario: challenge, activate with the secret,
      activate again with it, then submit wrong bytes. The secret is accepted
      twice, the wrong bytes are refused, and the key stays activated. */
  lemma ActivationScenario(state: seq<ClientInfo>, rd: RequestData, parseEk: EkParser, generate: ChallengeGenerator, wrong: Bytes)
    requires PrepareChallenge(rd, parseEk, generate).Ok?
    requires |PrepareChallenge(rd, parseEk, generate).value.1.secret| != 0
    requires wrong != PrepareChallenge(rd, parseEk, generate).value.1.secret
    ensures var secret := PrepareChallenge(rd, parseEk, generate).value.1.secret;
            var s1 := ChallengeTransition(state, rd, parseEk, generate).state;
            var t2 := ActivateTransition(s1, rd.(decryptedCredential := secret));
            var t3 := ActivateTransition(t2.state, rd.(decryptedCredential := secret));
            var t4 := ActivateTransition(t3.state, rd.(decryptedCredential := wrong));
            && t2.reply == Respond(EmptyResponse) && Current(t2.state, rd.aik.public).activated
            && t3.reply == Respond(EmptyResponse) && t3.state == t2.state
            && t4.reply == ActivationFailed && Current(t4.state, rd.aik.public).activated
  {
    var secret := PrepareChallenge(rd, parseEk, generate).value.1.secret;
    var s1 := ChallengeTransition(state, rd, parseEk, generate).state;
    var good := rd.(decryptedCredential := secret);
    ChallengeOutcome(state, rd, parseEk, generate);
    ActivateOutcome(s1, good);
    ActivateIdempotent(s1, good);
    var t3 := ActivateTransition(ActivateTransition(s1, good).state, good);
    ActivateOutcome(t3.state, rd.(decryptedCredential := wrong));
  }

  /** After `getNonce` issues `n`, the next `attest` for the same key is judged
      against `n` and no other value. */
  lemma AttestUsesIssuedNonce(state: seq<ClientInfo>, rd: RequestData, n: Bytes, attempt: RequestData, verifyQuote: QuoteVerifier)
    requires |n| == NonceLength
    requires attempt.aik.public == rd.aik.public
    ensures var s1 := NonceTransition(state, rd, n).state;
            var v := verifyQuote(attempt.tpmVersion, attempt.aik.public, attempt.quote.quote, attempt.quote.signature, attempt.pcrs, n);
            var c := Current(AttestTransition(s1, attempt, verifyQuote).state, rd.aik.public);
            && c.nonce == n
            && c.attestResults == (if v.Ok? then Some(v.value) else Current(state, rd.aik.public).attestResults)
  {
    var s1 := NonceTransition(state, rd, n).state;
    NonceOutcome(state, rd, n);
    AttestOutcome(s1, attempt, verifyQuote);
  }
}
