/**
 * The EK certificate verifier of verifier/ekcert.go, on values: the
 * directory walk that builds the root and intermediate pools, its error
 * policy, and the shaping of a chain-verification outcome into a results
 * record. The filesystem is a map from paths to nodes; X.509 parsing, PEM
 * decoding and chain building are oracles.
 */
module EkCertModel {
  import opened Common
  import opened Text

  /** A path as its components; `filepath.Join(dir, name)` is `dir + [name]`. */
  type Path = seq<string>

  /** What a path holds: a regular file, a directory listing its entry names
      in the order `ioutil.ReadDir` returns them, or something that cannot be
      read (a permission error, say). */
  datatype Node = File(data: Bytes) | Dir(entries: seq<string>) | Unreadable

  type FileSystem = map<Path, Node>

  /** The two facts `os.FileInfo` supplies that the walk uses. */
  datatype FileInfo = FileInfo(name: string, isDir: bool)

  /** The errors the walk can return. `NotExist` is the one `os.IsNotExist`
      recognises; `ParseFailed` is the `"%s parse failed: %v"` error naming the
      file. */
  datatype Error =
    | NotExist(path: Path)
    | IoError(path: Path)
    | ParseFailed(name: string, reason: string)
    | CertificateError(reason: string)

  predicate IsDir(fs: FileSystem, p: Path)
  {
    p in fs && fs[p].Dir?
  }

  /** `ioutil.ReadDir`. Reading a missing path is `NotExist`; reading a file
      or an unreadable node is another error. */
  function ReadDir(fs: FileSystem, p: Path): (r: Result<seq<FileInfo>, Error>)
    ensures r.Err? <==> !IsDir(fs, p)
    ensures r.Err? ==> r.error == (if p in fs then IoError(p) else NotExist(p))
    ensures r.Ok? ==> |r.value| == |fs[p].entries|
    ensures r.Ok? ==> forall i :: 0 <= i < |r.value| ==>
              r.value[i] == FileInfo(fs[p].entries[i], IsDir(fs, p + [fs[p].entries[i]]))
  {
    if p !in fs then Err(NotExist(p))
    else match fs[p]
      case Dir(entries) => Ok(seq(|entries|, i requires 0 <= i < |entries| => FileInfo(entries[i], IsDir(fs, p + [entries[i]]))))
      case _ => Err(IoError(p))
  }

  /** `ioutil.ReadFile`. */
  function ReadFile(fs: FileSystem, p: Path): (r: Result<Bytes, Error>)
    ensures r.Ok? <==> p in fs && fs[p].File?
    ensures r.Ok? ==> r.value == fs[p].data
  {
    if p !in fs then Err(NotExist(p))
    else match fs[p]
      case File(data) => Ok(data)
      case _ => Err(IoError(p))
  }

  /** The issuer name fields the results record reports. */
  datatype Name = Name(commonName: string, organization: seq<string>)

  /** An `x509.Certificate`, reduced to what this code reads or writes. */
  datatype Certificate = Certificate(
    raw: Bytes,
    issuer: Name,
    serialNumber: int,
    unhandledCriticalExtensions: seq<seq<int>>)

  /** `x509.ParseCertificate`: a certificate, a certificate with non-fatal
      errors (`x509.IsFatal` false), or a fatal error with no certificate. */
  datatype ParseOutcome = Parsed(cert: Certificate) | NonFatal(cert: Certificate, reason: string) | Fatal(reason: string)

  type CertParser = Bytes -> ParseOutcome

  /** The certificates `CertPool.AppendCertsFromPEM` finds in a buffer; it
      reports success when there is at least one. */
  type PemDecoder = Bytes -> seq<Certificate>

  function Elements(certs: seq<Certificate>): set<Certificate>
  {
    set c | c in certs
  }

  const RootCA: string := "RootCA"
  const IntermediateCA: string := "IntermediateCA"

  /** The extensions `parseCertsToPool` reads: `.der` is DER only, `.crt` and
      `.cer` may be DER or PEM. */
  predicate IsDerName(name: string) { Ext(name) == ".der" }
  predicate IsDerOrPemName(name: string) { Ext(name) == ".crt" || Ext(name) == ".cer" }

  /** Entries `parseCertsToPool` reads at all; everything else is skipped. */
  predicate Routed(info: FileInfo)
  {
    !info.isDir && (IsDerName(info.name) || IsDerOrPemName(info.name))
  }

  /** A walk's effect on a pool (or pair of pools) that it updates in place,
      and the error that stopped it, if any. */
  datatype Walk<T> = Walk(value: T, error: Option<Error>)

  /** One iteration of the `parseCertsToPool` loop. */
  function AddFile(fs: FileSystem, dir: Path, info: FileInfo, pool: set<Certificate>, parse: CertParser, pem: PemDecoder): (r: Walk<set<Certificate>>)
    ensures pool <= r.value
    ensures r.error.Some? ==> r.value == pool
    ensures !Routed(info) ==> r == Walk(pool, None)
    ensures r.error.Some? ==>
              || (ReadFile(fs, dir + [info.name]).Err? && r.error.value == ReadFile(fs, dir + [info.name]).error)
              || (r.error.value.ParseFailed? && r.error.value.name == info.name)
    ensures Routed(info) && r.error.None? ==> ReadFile(fs, dir + [info.name]).Ok?
  {
    if !Routed(info) then Walk(pool, None)
    else
      match ReadFile(fs, dir + [info.name])
      case Err(e) => Walk(pool, Some(e))
      case Ok(d) =>
        if IsDerName(info.name) then
          match parse(d)
          case Fatal(reason) => Walk(pool, Some(ParseFailed(info.name, reason)))
          case Parsed(c) => Walk(pool + {c}, None)
          case NonFatal(c, _) => Walk(pool + {c}, None)
        else
          match parse(d)
          case Parsed(c) => Walk(pool + {c}, None)
          case NonFatal(_, _) => Walk(pool, None)
          case Fatal(reason) =>
            if |pem(d)| > 0 then Walk(pool + Elements(pem(d)), None)
            else Walk(pool, Some(ParseFailed(info.name, reason)))
  }

  /** `parseCertsToPool`: add the certificates of a directory listing to a
      pool, stopping at the first error. */
  function CertsFromFiles(fs: FileSystem, dir: Path, files: seq<FileInfo>, pool: set<Certificate>, parse: CertParser, pem: PemDecoder): (r: Walk<set<Certificate>>)
    ensures pool <= r.value
    ensures r.error.None? ==> forall i :: 0 <= i < |files| && Routed(files[i]) ==> ReadFile(fs, dir + [files[i].name]).Ok?
    decreases |files|
  {
    if |files| == 0 then Walk(pool, None)
    else
      var w := AddFile(fs, dir, files[0], pool, parse, pem);
      if w.error.Some? then w else CertsFromFiles(fs, dir, files[1..], w.value, parse, pem)
  }

  /** The root and intermediate pools. */
  datatype Pools = Pools(roots: set<Certificate>, intermediates: set<Certificate>)

  /** The `IntermediateCA` half of `readCertificates`. */
  function CertsFromIntermediates(fs: FileSystem, dir: Path, pools: Pools, parse: CertParser, pem: PemDecoder): (r: Walk<Pools>)
    ensures r.value.roots == pools.roots && pools.intermediates <= r.value.intermediates
    ensures dir + [IntermediateCA] !in fs ==> r == Walk(pools, None)
    ensures dir + [IntermediateCA] in fs && !IsDir(fs, dir + [IntermediateCA]) ==>
              r == Walk(pools, Some(IoError(dir + [IntermediateCA])))
  {
    var sub := dir + [IntermediateCA];
    match ReadDir(fs, sub)
    case Err(e) => if e.NotExist? then Walk(pools, None) else Walk(pools, Some(e))
    case Ok(files) =>
      var w := CertsFromFiles(fs, sub, files, pools.intermediates, parse, pem);
      Walk(pools.(intermediates := w.value), w.error)
  }

  /** `readCertificates`: one vendor directory's `RootCA` files into the roots
      and its `IntermediateCA` files into the intermediates. */
  function CertsFromVendor(fs: FileSystem, dir: Path, pools: Pools, parse: CertParser, pem: PemDecoder): (r: Walk<Pools>)
    ensures pools.roots <= r.value.roots && pools.intermediates <= r.value.intermediates
    ensures r.error.None? ==>
              && (dir + [RootCA] !in fs || IsDir(fs, dir + [RootCA]))
              && (dir + [IntermediateCA] !in fs || IsDir(fs, dir + [IntermediateCA]))
  {
    var sub := dir + [RootCA];
    match ReadDir(fs, sub)
    case Err(e) =>
      if e.NotExist? then CertsFromIntermediates(fs, dir, pools, parse, pem) else Walk(pools, Some(e))
    case Ok(files) =>
      var w := CertsFromFiles(fs, sub, files, pools.roots, parse, pem);
      if w.error.Some? then Walk(pools.(roots := w.value), w.error)
      else CertsFromIntermediates(fs, dir, pools.(roots := w.value), parse, pem)
  }

  /** The inner loop of `NewEKVerifier`: every directory entry of one
      certificate path, skipping non-directories. */
  function CertsFromVendors(fs: FileSystem, dir: Path, entries: seq<FileInfo>, pools: Pools, parse: CertParser, pem: PemDecoder): (r: Result<Pools, Error>)
    ensures r.Ok? ==> pools.roots <= r.value.roots && pools.intermediates <= r.value.intermediates
    decreases |entries|
  {
    if |entries| == 0 then Ok(pools)
    else if !entries[0].isDir then CertsFromVendors(fs, dir, entries[1..], pools, parse, pem)
    else
      var w := CertsFromVendor(fs, dir + [entries[0].name], pools, parse, pem);
      if w.error.Some? then Err(w.error.value)
      else CertsFromVendors(fs, dir, entries[1..], w.value, parse, pem)
  }

  /** The outer loop of `NewEKVerifier`, from pools already filled. */
  function CertsFromPaths(fs: FileSystem, certsPath: seq<Path>, pools: Pools, parse: CertParser, pem: PemDecoder): (r: Result<Pools, Error>)
    ensures r.Ok? ==> pools.roots <= r.value.roots && pools.intermediates <= r.value.intermediates
    ensures r.Ok? ==> forall k :: 0 <= k < |certsPath| ==> IsDir(fs, certsPath[k])
    decreases |certsPath|
  {
    if |certsPath| == 0 then Ok(pools)
    else
      match ReadDir(fs, certsPath[0])
      case Err(e) => Err(e)
      case Ok(entries) =>
        match CertsFromVendors(fs, certsPath[0], entries, pools, parse, pem)
        case Err(e) => Err(e)
        case Ok(next) => CertsFromPaths(fs, certsPath[1..], next, parse, pem)
  }

  /** Continue with the remaining certificate paths unless the last step failed. */
  function ThenPaths(fs: FileSystem, r: Result<Pools, Error>, rest: seq<Path>, parse: CertParser, pem: PemDecoder): Result<Pools, Error>
  {
    match r
    case Err(e) => Err(e)
    case Ok(pools) => CertsFromPaths(fs, rest, pools, parse, pem)
  }

  /** `NewEKVerifier`: the pools built from empty ones. */
  function TrustStore(fs: FileSystem, certsPath: seq<Path>, parse: CertParser, pem: PemDecoder): (r: Result<Pools, Error>)
    ensures certsPath == [] ==> r == Ok(Pools({}, {}))
    ensures r.Ok? ==> forall k :: 0 <= k < |certsPath| ==> IsDir(fs, certsPath[k])
  {
    CertsFromPaths(fs, certsPath, Pools({}, {}), parse, pem)
  }

  /** `x509.ExtKeyUsage`; the verifier only ever asks for `Any`. */
  datatype ExtKeyUsage = ExtKeyUsageAny | ExtKeyUsageOther(oid: seq<int>)

  /** `x509.VerifyOptions` as `VerifyEKCert` fills them in. */
  datatype VerifyOptions = VerifyOptions(roots: set<Certificate>, intermediates: set<Certificate>, keyUsages: seq<ExtKeyUsage>)

  /** `Certificate.Verify`: the first chain it found (leaf first), or the
      error. The library returns at least one chain whenever it returns no
      error, and only the first one is read. */
  datatype ChainOutcome = Verified(chain: seq<Certificate>) | VerifyFailed(message: string)

  type ChainVerifier = (Certificate, VerifyOptions) -> ChainOutcome

  /** `pb.EkcertVerificationResults_CertSummary`. */
  datatype CertSummary = CertSummary(issuerCn: string, issuerOrg: string, serial: string)

  /** `pb.EkcertVerificationResults`. */
  datatype EkcertVerificationResults = EkcertVerificationResults(
    succeeded: bool,
    chainVerified: bool,
    verificationError: string,
    chain: seq<CertSummary>)

  /** The summary of one chain certificate: the issuer CN; the issuer
      organizations joined with single spaces, which split back into the list
      when no organization holds a space (and in general into the words of
      each organization in turn, SummaryOrganizationWords); the serial number
      in decimal, which reads back to the serial. */
  function Summarize(c: Certificate): (s: CertSummary)
    ensures s.issuerCn == c.issuer.commonName
    ensures SeparatorFree(c.issuer.organization, ' ') ==> Split(s.issuerOrg, ' ') == c.issuer.organization
    ensures c.issuer.organization == [] ==> s.issuerOrg == ""
    ensures |c.issuer.organization| == 1 ==> s.issuerOrg == c.issuer.organization[0]
    ensures IsDecimal(s.serial) && ParseDecimal(s.serial) == c.serialNumber
  {
    var org := Join(c.issuer.organization, ' ');
    assert SeparatorFree(c.issuer.organization, ' ') ==> Split(org, ' ') == c.issuer.organization by {
      if SeparatorFree(c.issuer.organization, ' ') {
        SplitJoin(c.issuer.organization, ' ');
      }
    }
    CertSummary(c.issuer.commonName, org, Decimal(c.serialNumber))
  }

  /** Whatever the organization names, the summary's organization field
      splits at spaces into the words of each name in turn. */
  lemma SummaryOrganizationWords(c: Certificate)
    requires |c.issuer.organization| >= 1
    ensures Split(Summarize(c).issuerOrg, ' ') == SplitEach(c.issuer.organization, ' ')
  {
    SplitJoinEach(c.issuer.organization, ' ');
  }

  /** The results record `VerifyEKCert` builds from a verification outcome. */
  function ShapeResults(outcome: ChainOutcome): (r: EkcertVerificationResults)
    ensures r.succeeded <==> outcome.Verified?
    ensures r.chainVerified <==> outcome.Verified?
    ensures outcome.VerifyFailed? ==> r.verificationError == outcome.message && r.chain == []
    ensures outcome.Verified? ==> r.verificationError == "" && |r.chain| == |outcome.chain|
    ensures outcome.Verified? ==> forall i :: 0 <= i < |r.chain| ==>
              && r.chain[i].issuerCn == outcome.chain[i].issuer.commonName
              && (SeparatorFree(outcome.chain[i].issuer.organization, ' ') ==>
                    Split(r.chain[i].issuerOrg, ' ') == outcome.chain[i].issuer.organization)
              && IsDecimal(r.chain[i].serial) && ParseDecimal(r.chain[i].serial) == outcome.chain[i].serialNumber
  {
    match outcome
    case VerifyFailed(message) => EkcertVerificationResults(false, false, message, [])
    case Verified(chain) =>
      EkcertVerificationResults(true, true, "", seq(|chain|, i requires 0 <= i < |chain| => Summarize(chain[i])))
  }

  /** The options `VerifyEKCert` passes: the two pools, any key usage. */
  function EkVerifyOptions(pools: Pools): VerifyOptions
  {
    VerifyOptions(pools.roots, pools.intermediates, [ExtKeyUsageAny])
  }

  /** `VerifyEKCert` as evidently intended: a fatal parse error is returned;
      otherwise the certificate, with its unhandled critical extensions
      cleared, is verified against the pools. */
  function VerifyEkCert(pools: Pools, certBytes: Bytes, parse: CertParser, verify: ChainVerifier): (r: Result<EkcertVerificationResults, Error>)
    ensures r.Err? <==> parse(certBytes).Fatal?
    ensures r.Err? ==> r.error == CertificateError(parse(certBytes).reason)
  {
    match parse(certBytes)
    case Fatal(reason) => Err(CertificateError(reason))
    case Parsed(c) => Ok(ShapeResults(verify(c.(unhandledCriticalExtensions := []), EkVerifyOptions(pools))))
    case NonFatal(c, _) => Ok(ShapeResults(verify(c.(unhandledCriticalExtensions := []), EkVerifyOptions(pools))))
  }

  /** What `VerifyEKCert` does as written: on a fatal parse error
      `x509.ParseCertificate` returns a nil certificate, and verifier/ekcert.go:24 writes
      through it before the error is checked. */
  datatype Execution = Returned(result: Result<EkcertVerificationResults, Error>) | NilDereference

  function VerifyEkCertAsWritten(pools: Pools, certBytes: Bytes, parse: CertParser, verify: ChainVerifier): (r: Execution)
    ensures r == NilDereference <==> parse(certBytes).Fatal?
    ensures r.Returned? ==> r.result.Ok?
  {
    match parse(certBytes)
    case Fatal(_) => NilDereference
    case Parsed(c) => Returned(Ok(ShapeResults(verify(c.(unhandledCriticalExtensions := []), EkVerifyOptions(pools)))))
    case NonFatal(c, _) => Returned(Ok(ShapeResults(verify(c.(unhandledCriticalExtensions := []), EkVerifyOptions(pools)))))
  }
}
