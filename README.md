# go-attestation: demo attestation server and EK verifier, modelled in Dafny

This project models the two parts of go-attestation that carry protocol
logic.

**The demo remote-attestation server** (attest/demo/server.go) keeps one
`clientInfo` record per attestation identity key (AIK), keyed by byte equality
of the AIK public blob. Four RPC handlers drive a device through the
protocol:

- `activationGetChallenge` issues a credential-activation challenge bound to
  the device's endorsement key (EK) and records the expected secret.
- `activate` checks the decrypted credential against that secret.
- `getNonce` issues a 32-byte nonce.
- `attest` verifies a quote against the stored nonce and records the result.

The model has two layers:

- ServerModel gives each handler as a pure transition on the record list.
- DemoServer gives the `Server` class, whose handlers update the `state` list
  in place and are proved to perform exactly those transitions.
- ServerProperties proves what the handlers promise:
  - keys stay unique;
  - which fields each handler changes;
  - activation succeeds if and only if the stored secret is non-empty and
    equal to the credential;
  - a failed challenge commits nothing; a failed activation or attestation
    commits only the record the lookup appends;
  - a request for an unseen key creates its record;
  - the end-to-end activation scenario.

**The EK certificate verifier** (verifier/ekcert.go) builds a root pool and an
intermediate pool from a directory tree `<path>/<vendor>/RootCA` and
`<path>/<vendor>/IntermediateCA`. It then turns a chain-verification outcome
into a results record. The model has three parts:

- EkCertModel defines the walk over an abstract filesystem (a map from path
  to file, directory or unreadable node). X.509 parsing, PEM decoding and
  chain building are oracles.
- EkCert runs the walk imperatively over `CertPool` objects, with the
  source's nested loops and early returns.
- EkCertProperties proves:
  - routing by extension;
  - the per-file and per-directory error policy;
  - that the build fails exactly when some path, vendor directory or file
    under it fails;
  - that pools only grow, and only from the right directory;
  - the shape of the results record.

Text holds the library string operations the verifier depends on:
`filepath.Ext`, `strings.Join`/`strings.Split` and the decimal rendering of a
serial number.

Behaviour of the code worth knowing, which the model follows:

- A vendor directory without `RootCA` is accepted, just like one without
  `IntermediateCA`; only a `RootCA` or `IntermediateCA` that exists but cannot
  be listed is an error (verifier/ekcert.go:89-105).
- A nonce is not consumed by the quote check. `attest` never clears `Nonce`,
  so a second quote is checked against the same nonce
  (attest/demo/server.go:177-186).
- A quote result is stored only when `VerifyQuote` returns no error; on an
  error the record keeps its previous result (attest/demo/server.go:178-186).
- The activation secret is compared with `bytes.Equal`, which is not
  constant-time (attest/demo/server.go:126). Only equality is modelled.

## Model

| member | source | states |
|---|---|---|
| ServerModel.FirstIndex | attest/demo/server.go:54-58 | the first record whose AIK public blob equals the key; none exactly when no record has that key |
| ServerModel.Resolve | attest/demo/server.go:53-62 | `clientInfo` returns the record for the key. An unseen key gets exactly one zero record (`AIK.Public = pub`) appended. Earlier records are unchanged and key uniqueness is preserved |
| ServerModel.PrepareChallenge | attest/demo/server.go:76-94 | the challenge step fails exactly when EK decoding fails or challenge generation for that EK and the request's AIK fails; on success it carries the decoded EK and the challenge generated for exactly those parameters |
| ServerModel.ChallengeTransition | attest/demo/server.go:65-107 | a 500 exactly when the challenge step fails, and then the state is untouched; otherwise the reply is the generated credential. At most one record is appended, records of other keys are unchanged and keys stay unique |
| ServerModel.ActivateTransition | attest/demo/server.go:110-137 | success exactly when the key's current record holds a non-empty secret byte-equal to the credential; on failure a 400 and only the lookup's effect. At most one record is appended, records of other keys are unchanged and keys stay unique |
| ServerModel.NonceTransition | attest/demo/server.go:140-162 | the reply carries the issued 32 bytes. At most one record is appended, records of other keys are unchanged and keys stay unique |
| ServerModel.AttestTransition | attest/demo/server.go:165-190 | success exactly when `VerifyQuote` against the key's current record succeeds; on an error a 500 and only the lookup's effect. At most one record is appended, records of other keys are unchanged and keys stay unique |
| DemoServer.FindClient | attest/demo/server.go:54-58 | the linear scan finds the first record with a byte-equal key, or reports that none has it |
| DemoServer.Server.constructor | attest/demo/server.go:37-44 | a server starts with no records, which trivially have unique keys |
| DemoServer.Server.LookupClient | attest/demo/server.go:53-62 | the in-place lookup-or-append keeps keys unique and yields the record for the key |
| DemoServer.Server.ActivationGetChallenge | attest/demo/server.go:65-107 | the handler keeps keys unique and performs exactly the challenge transition |
| DemoServer.Server.Activate | attest/demo/server.go:110-137 | the handler keeps keys unique and performs exactly the activation transition |
| DemoServer.Server.GetNonce | attest/demo/server.go:140-162 | the handler keeps keys unique and performs exactly the nonce transition |
| DemoServer.Server.Attest | attest/demo/server.go:165-190 | the handler keeps keys unique and performs exactly the quote-recording transition |
| ServerProperties.UpdateResolved | attest/demo/server.go:53-62 | writing through the returned record changes no other record and keeps keys unique. A later lookup of the key sees the write |
| ServerProperties.ChallengeOutcome | attest/demo/server.go:76-106 | if EK decoding or challenge generation fails, the reply is a 500 and state is unchanged (no record created). On success only the requester's record changes: new AIK, EK and secret, `Activated` false, `Nonce` and `AttestResults` kept |
| ServerProperties.ActivateOutcome | attest/demo/server.go:122-136 | success exactly when the stored secret is non-empty and byte-equal to the credential. Success sets `Activated`; failure replies 400 and leaves `Activated` as it was. The secret is never cleared |
| ServerProperties.NonceOutcome | attest/demo/server.go:152-160 | `Nonce` becomes the issued 32 bytes and is returned; no other field or record changes |
| ServerProperties.AttestOutcome | attest/demo/server.go:177-189 | the quote is verified against the stored nonce. A verifier error changes nothing beyond the lookup; otherwise only `AttestResults` is set. The nonce stays, and `Activated` is neither checked nor changed |
| ServerProperties.FirstContactAppends | attest/demo/server.go:110-190 | `activate`, `getNonce` and `attest` append a zero record for an unseen key even when they fail. A first-contact activation always fails |
| ServerProperties.HandlersPreserveUniqueKeys | attest/demo/server.go:53-101 | every handler keeps AIK keys pairwise distinct, including the challenge handler's `c.AIK = rd.AIK` overwrite |
| ServerProperties.ActivateIdempotent | attest/demo/server.go:126-133 | resubmitting the correct secret succeeds again and changes nothing further |
| ServerProperties.ActivationSticky | attest/demo/server.go:126-133 | once activated, a key stays activated whatever credential is submitted |
| ServerProperties.ChallengeSupersedes | attest/demo/server.go:97-101 | after a new challenge the key is not activated. Only that challenge's secret activates it |
| ServerProperties.ActivationScenario | attest/demo/server.go:97-133 | the sequence challenge, correct secret, correct secret again, wrong bytes. Both correct submissions succeed, the wrong one fails, and the key stays activated |
| ServerProperties.AttestUsesIssuedNonce | attest/demo/server.go:155-186 | after `getNonce` issues n, the next quote for that key is judged against n and no other value |
| Text.Ext | verifier/ekcert.go:116 | `filepath.Ext` of an entry name: the suffix from the last '.', empty exactly when the name has no '.' |
| Text.SplitJoinEach | verifier/ekcert.go:49 | splitting the space-joined organizations gives the words of each organization in turn |
| Text.SplitJoin | verifier/ekcert.go:49 | organizations joined with single spaces split back into the list when no organization contains a space |
| Text.Decimal | verifier/ekcert.go:50 | the serial number's decimal rendering is a well-formed numeral with '-' exactly for negatives and no leading zero, and it reads back to the serial |
| EkCertModel.ReadDir | verifier/ekcert.go:68 | listing a missing path is the not-exist error; listing a file or an unreadable node is another error; a directory lists its entries in order |
| EkCertModel.ReadFile | verifier/ekcert.go:118 | reading succeeds exactly on a regular file and yields its contents |
| EkCertModel.AddFile | verifier/ekcert.go:110-141 | one loop iteration only grows the pool; a failing entry adds nothing, and its error is the file's read error or a parse failure naming the file; a skipped entry changes nothing; a routed entry that passes was readable |
| EkCertModel.CertsFromFiles | verifier/ekcert.go:109-144 | the listing walk only grows the pool, and when it ends without error every routed file of the listing was readable |
| EkCertModel.CertsFromIntermediates | verifier/ekcert.go:98-106 | the `IntermediateCA` step leaves the roots alone and only grows the intermediates; a missing directory is no error and changes nothing; a non-directory is its listing error, with nothing changed |
| EkCertModel.CertsFromVendor | verifier/ekcert.go:88-107 | one vendor only grows both pools, and a clean vendor had each of `RootCA` and `IntermediateCA` either missing or listable |
| EkCertModel.CertsFromVendors | verifier/ekcert.go:72-79 | a successful walk over a path's vendors only grows both pools |
| EkCertModel.CertsFromPaths | verifier/ekcert.go:67-80 | a successful walk over the certificate paths only grows both pools, and every path in it was a listable directory |
| EkCertModel.TrustStore | verifier/ekcert.go:63-86 | no paths give two empty pools, and a successful build listed every given path |
| EkCertModel.Summarize | verifier/ekcert.go:47-51 | a chain summary has the issuer CN; the organizations joined with single spaces (empty for none, the name itself for one, and splitting back into the list when no name holds a space); and the serial in decimal, which reads back to the serial |
| EkCertModel.SummaryOrganizationWords | verifier/ekcert.go:49 | whatever the organization names, the summary's organization field splits at spaces into the words of each name in turn |
| EkCertModel.ShapeResults | verifier/ekcert.go:39-53 | `Succeeded` and `ChainVerified` hold exactly when verification succeeded. A failure carries the error text and no chain; a success carries an empty error and one summary per certificate of the first chain, in order |
| EkCertModel.VerifyEkCert | verifier/ekcert.go:22-56 | an error exactly when parsing is fatal, and then it is that parse error |
| EkCertModel.VerifyEkCertAsWritten | verifier/ekcert.go:23-27 | as written, a fatal parse error dereferences a nil certificate; every other input returns results |
| EkCertProperties.VerifyEkCertOutcome | verifier/ekcert.go:29-55 | on a non-fatal parse the results come from verifying the certificate, with unhandled critical extensions cleared, against both pools with any key usage |
| EkCertProperties.UnhandledExtensionsIgnored | verifier/ekcert.go:23-37 | certificates that differ only in unhandled critical extensions verify alike |
| EkCertProperties.NilDereferenceOnFatalParse | verifier/ekcert.go:23-27 | the as-written and intended versions agree except on a fatal parse. There the code dereferences nil and the intended version returns the error |
| EkCertProperties.NilDereferenceExample | verifier/ekcert.go:23-27 | an empty buffer that the parser rejects makes the code as written dereference nil |
| EkCertProperties.AddFileEffect | verifier/ekcert.go:110-141 | one entry only grows the pool, and only by what that file holds. A failing file adds nothing; a skipped entry changes nothing |
| EkCertProperties.FileRouting | verifier/ekcert.go:116-140 | `.der`: a fatal parse is an error naming the file, and a non-fatal one still adds the certificate. `.crt`/`.cer`: a fatal DER error is an error only if PEM adds nothing, and a non-fatal one adds nothing without error. Other extensions change nothing |
| EkCertProperties.UnreadableFileFails | verifier/ekcert.go:118-121 | a read error on a routed file is returned unchanged |
| EkCertProperties.CertsFromFilesBounds | verifier/ekcert.go:109-144 | walking a listing only grows the pool, and only by certificates its routed files hold |
| EkCertProperties.IgnoresUnrouted | verifier/ekcert.go:110-116 | subdirectories and files with other extensions are ignored: the walk equals the walk over the routed entries |
| EkCertProperties.ParseFailureNamesFile | verifier/ekcert.go:117-137 | a reported parse failure names a routed file of the listing |
| EkCertProperties.VendorRouting | verifier/ekcert.go:88-107 | roots grow only from `RootCA` files and intermediates only from `IntermediateCA` files |
| EkCertProperties.VendorErrorPolicy | verifier/ekcert.go:89-105 | a missing `RootCA` or `IntermediateCA` is no error: with neither the vendor changes nothing, without `RootCA` it is the intermediate step alone, and with a listable `RootCA` but no `IntermediateCA` it is the root walk alone. A `RootCA` that cannot be listed is that listing's error and stops before the intermediates; an `IntermediateCA` that cannot be listed after a clean root step is its listing error |
| EkCertProperties.AddFileErrorIndependent | verifier/ekcert.go:117-137 | whether one file stops the walk, and with which error, does not depend on the pool it is added to |
| EkCertProperties.CertsFromFilesFails | verifier/ekcert.go:109-144 | the listing walk stops with an error exactly when one of its files fails, and the error does not depend on the pool |
| EkCertProperties.VendorFailsExactly | verifier/ekcert.go:88-107 | a vendor fails exactly when its `RootCA` or `IntermediateCA` exists and cannot be listed or holds a failing file; the error does not depend on the pools |
| EkCertProperties.CertsFromVendorsFails | verifier/ekcert.go:72-79 | the loop over a path's entries fails exactly when one of its directory entries is a failing vendor, whatever the pools |
| EkCertProperties.TrustStoreFails | verifier/ekcert.go:67-80 | the build fails exactly when some certificate path cannot be listed or has a failing vendor directory, so a file that cannot be read or parsed anywhere under `<path>/<vendor>/RootCA` or `IntermediateCA` aborts it |
| EkCertProperties.SkipsNonDirectories | verifier/ekcert.go:72-75 | entries of a certificate path that are not directories are skipped |
| EkCertProperties.UnreadablePathFails | verifier/ekcert.go:67-71 | the build fails when any given certificate path cannot be listed |
| EkCertProperties.VendorsBounds | verifier/ekcert.go:72-79 | across a path's vendors the pools only grow, each from its own subdirectory kind |
| EkCertProperties.TrustStoreSound | verifier/ekcert.go:63-86 | a successful build's roots all come from some `<path>/<vendor>/RootCA` file and its intermediates from some `<path>/<vendor>/IntermediateCA` file |
| EkCert.CertPool.constructor | verifier/ekcert.go:64-65 | a new pool is empty |
| EkCert.CertPool.AddCert | verifier/ekcert.go:126 | adding a certificate grows the pool by exactly it |
| EkCert.CertPool.AppendCertsFromPEM | verifier/ekcert.go:135 | adds every PEM certificate found and reports whether there was one |
| EkCert.EKVerifier.constructor | verifier/ekcert.go:82-85 | the verifier holds the two pools it was built with |
| EkCert.EKVerifier.VerifyEKCert | verifier/ekcert.go:22-56 | the method computes the intended results for the verifier's current pools |
| EkCert.SummarizeChain | verifier/ekcert.go:46-52 | one summary per certificate of the first chain, in chain order |
| EkCert.ParseCertsToPool | verifier/ekcert.go:109-144 | the in-place loop leaves the pool and error exactly as the listing walk defines |
| EkCert.ReadCertificates | verifier/ekcert.go:88-107 | the in-place vendor step leaves both pools and the error exactly as the vendor walk defines |
| EkCert.NewEKVerifier | verifier/ekcert.go:63-86 | fails exactly when the trust-store walk fails, with its error. Otherwise it returns fresh pools holding exactly the walk's certificates |

## Left out

- HTTP and JSON transport: request decoding and its failure path (a 500 before
  any state is touched), `http.Error` bodies beyond status and message,
  response encoding, logging, `Close` and `RunServer`. These are I/O; each
  handler takes an already decoded request.
- The server lock: every handler holds it for its whole body, so each handler
  is one atomic method.
- Cryptography: EK PEM/PKCS#1 decoding, `ActivationParameters.Generate`,
  `verifier.VerifyQuote` and `sha256` are foreign calls. The first three are
  oracle parameters; `sha256` only feeds log lines.
- Randomness: the nonce is a 32-byte parameter. The ignored error of
  `io.ReadFull` is not modelled, nor is how random the bytes are.
- Timing: `bytes.Equal` is modelled as byte equality; how long the
  comparison takes is not modelled.
- `AttestationParameters` fields other than `Public` are carried as one
  opaque blob, because only `Public` is read.
- X.509 parsing, PEM decoding, `Certificate.Verify` and path validation are
  library code, modelled as oracles. A `CertPool` is the set of certificates
  it holds; its subject index is not modelled.
- The filesystem is a map from paths to nodes. `filepath.Join` appends one
  component without cleaning. `ReadDir`'s name ordering is whatever order the
  directory node lists. File metadata other than the directory flag is not
  modelled.
- The client side and command line (attest/demo/client.go,
  attest/client/client.go, attest/demo/demo.go, attest/demo/rpc.go) are TPM
  driver calls, file I/O and flag handling, not part of this model.
- EkCertProperties.UnreadablePathFails: states only that the build fails. It
  does not say which error is returned when an earlier path or vendor fails
  first; EkCertProperties.TrustStoreFails does not name the error either.
- EkCertProperties.TrustStoreSound: states soundness (everything in the pools
  came from the right directory), not that every readable certificate made
  it in.

## Findings

| source | as written | input that shows it | evidently intended | confidence | as-written member | corrected member |
|---|---|---|---|---|---|---|
| verifier/ekcert.go:23-27 | `c.UnhandledCriticalExtensions = nil` runs before the fatal-error check, on the nil certificate a fatal parse returns | certificate bytes the parser rejects fatally, e.g. an empty buffer | return the parse error before touching `c` | medium, not executed (relies on the parser returning nil with a fatal error) | EkCertModel.VerifyEkCertAsWritten | EkCertModel.VerifyEkCert |
