/**
 * The EK verifier of verifier/ekcert.go as the code runs it: two certificate
 * pools updated in place by nested loops over directory listings, returning
 * early on the first error. Each method is proved to compute what the pure
 * walk of EkCertModel defines, so the lemmas of EkCertProperties describe it.
 */
module EkCert {
  import opened Common
  import opened EkCertModel

  /** `x509.CertPool`, as the set of certificates it holds. */
  class CertPool {
    var certs: set<Certificate>

    /** `x509.NewCertPool`. */
    constructor ()
      ensures certs == {}
    {
      certs := {};
    }

    /** `CertPool.AddCert`. */
    method AddCert(c: Certificate)
      modifies this
      ensures certs == old(certs) + {c}
    {
      certs := certs + {c};
    }

    /** `CertPool.AppendCertsFromPEM`: adds every certificate found and
        reports whether there was at least one. */
    method AppendCertsFromPEM(d: Bytes, pem: PemDecoder) returns (ok: bool)
      modifies this
      ensures ok <==> |pem(d)| > 0
      ensures certs == old(certs) + Elements(pem(d))
    {
      var found := pem(d);
      certs := certs + Elements(found);
      ok := |found| > 0;
    }
  }

  /** `EKVerifier`: the pools it verifies against, never changed once built. */
  class EKVerifier {
    const roots: CertPool
    const intermediates: CertPool

    constructor (roots: CertPool, intermediates: CertPool)
      ensures this.roots == roots && this.intermediates == intermediates
    {
      this.roots := roots;
      this.intermediates := intermediates;
    }

    /** The pools' current contents. */
    function Pools(): Pools
      reads roots, intermediates
    {
      EkCertModel.Pools(roots.certs, intermediates.certs)
    }

    /** `VerifyEKCert`, with the nil dereference of a fatally unparsable
        certificate replaced by returning the parse error. */
    method VerifyEKCert(certBytes: Bytes, parse: CertParser, verify: ChainVerifier) returns (r: Result<EkcertVerificationResults, Error>)
      ensures r == VerifyEkCert(Pools(), certBytes, parse, verify)
    {
      var parsed := parse(certBytes);
      if parsed.Fatal? {
        return Err(CertificateError(parsed.reason));
      }
      var c := parsed.cert.(unhandledCriticalExtensions := []);
      var outcome := verify(c, VerifyOptions(roots.certs, intermediates.certs, [ExtKeyUsageAny]));
      if outcome.VerifyFailed? {
        return Ok(EkcertVerificationResults(false, false, outcome.message, []));
      }
      var chain := SummarizeChain(outcome.chain);
      assert ShapeResults(outcome).chain == chain;
      return Ok(EkcertVerificationResults(true, true, "", chain));
    }
  }

  /** The loop of `VerifyEKCert` over the first chain: one summary per
      certificate, in chain order. */
  method SummarizeChain(certs: seq<Certificate>) returns (chain: seq<CertSummary>)
    ensures |chain| == |certs|
    ensures forall k :: 0 <= k < |certs| ==> chain[k] == Summarize(certs[k])
  {
    chain := [];
    for i := 0 to |certs|
      invariant |chain| == i
      invariant forall k :: 0 <= k < i ==> chain[k] == Summarize(certs[k])
    {
      chain := chain + [Summarize(certs[i])];
    }
  }

  /** `parseCertsToPool`. */
  method ParseCertsToPool(fs: FileSystem, path: Path, files: seq<FileInfo>, pool: CertPool, parse: CertParser, pem: PemDecoder) returns (err: Option<Error>)
    modifies pool
    ensures Walk(pool.certs, err) == CertsFromFiles(fs, path, files, old(pool.certs), parse, pem)
  {
    var i := 0;
    while i < |files|
      invariant 0 <= i <= |files|
      invariant CertsFromFiles(fs, path, files[i..], pool.certs, parse, pem) == CertsFromFiles(fs, path, files, old(pool.certs), parse, pem)
    {
      var info := files[i];
      ghost var before := pool.certs;
      assert files[i..][1..] == files[i + 1..];
      if info.isDir {
        i := i + 1;
        continue;
      }
      var file := path + [info.name];
      var ext := Text.Ext(info.name);
      if ext == ".der" {
        var d := ReadFile(fs, file);
        if d.Err? {
          return Some(d.error);
        }
        var c := parse(d.value);
        if c.Fatal? {
          return Some(ParseFailed(info.name, c.reason));
        }
        pool.AddCert(c.cert);
      } else if ext == ".crt" || ext == ".cer" {
        var d := ReadFile(fs, file);
        if d.Err? {
          return Some(d.error);
        }
        var c := parse(d.value);
        if c.Fatal? {
          var ok := pool.AppendCertsFromPEM(d.value, pem);
          if !ok {
            assert pool.certs == before;
            assert AddFile(fs, path, info, before, parse, pem) == Walk(before, Some(ParseFailed(info.name, c.reason)));
            return Some(ParseFailed(info.name, c.reason));
          }
        }
        if c.Parsed? {
          pool.AddCert(c.cert);
        }
      }
      i := i + 1;
    }
    return None;
  }

  /** `readCertificates`. */
  method ReadCertificates(fs: FileSystem, dir: Path, roots: CertPool, intermediates: CertPool, parse: CertParser, pem: PemDecoder) returns (err: Option<Error>)
    requires roots != intermediates
    modifies roots, intermediates
    ensures Walk(EkCertModel.Pools(roots.certs, intermediates.certs), err)
         == CertsFromVendor(fs, dir, EkCertModel.Pools(old(roots.certs), old(intermediates.certs)), parse, pem)
  {
    var rootFiles := ReadDir(fs, dir + [RootCA]);
    if rootFiles.Err? && !rootFiles.error.NotExist? {
      return Some(rootFiles.error);
    }
    if rootFiles.Ok? {
      err := ParseCertsToPool(fs, dir + [RootCA], rootFiles.value, roots, parse, pem);
      if err.Some? {
        return err;
      }
    }
    var intermediateFiles := ReadDir(fs, dir + [IntermediateCA]);
    if intermediateFiles.Err? {
      if intermediateFiles.error.NotExist? {
        return None;
      }
      return Some(intermediateFiles.error);
    }
    err := ParseCertsToPool(fs, dir + [IntermediateCA], intermediateFiles.value, intermediates, parse, pem);
  }

  /** `NewEKVerifier`. */
  method NewEKVerifier(fs: FileSystem, certsPath: seq<Path>, parse: CertParser, pem: PemDecoder) returns (r: Result<EKVerifier, Error>)
    ensures r.Err? <==> TrustStore(fs, certsPath, parse, pem).Err?
    ensures r.Err? ==> r.error == TrustStore(fs, certsPath, parse, pem).error
    ensures r.Ok? ==> fresh(r.value) && fresh(r.value.roots) && fresh(r.value.intermediates)
    ensures r.Ok? ==> r.value.Pools() == TrustStore(fs, certsPath, parse, pem).value
  {
    var roots := new CertPool();
    var intermediates := new CertPool();
    ghost var total := TrustStore(fs, certsPath, parse, pem);
    var i := 0;
    while i < |certsPath|
      invariant 0 <= i <= |certsPath|
      invariant fresh(roots) && fresh(intermediates) && roots != intermediates
      invariant CertsFromPaths(fs, certsPath[i..], EkCertModel.Pools(roots.certs, intermediates.certs), parse, pem) == total
    {
      var dir := certsPath[i];
      assert certsPath[i..][1..] == certsPath[i + 1..];
      var root := ReadDir(fs, dir);
      if root.Err? {
        return Err(root.error);
      }
      var entries := root.value;
      var j := 0;
      while j < |entries|
        invariant 0 <= j <= |entries|
        invariant fresh(roots) && fresh(intermediates)
        invariant ThenPaths(fs, CertsFromVendors(fs, dir, entries[j..], EkCertModel.Pools(roots.certs, intermediates.certs), parse, pem), certsPath[i + 1..], parse, pem) == total
      {
        var f := entries[j];
        assert entries[j..][1..] == entries[j + 1..];
        if !f.isDir {
          j := j + 1;
          continue;
        }
        var err := ReadCertificates(fs, dir + [f.name], roots, intermediates, parse, pem);
        if err.Some? {
          return Err(err.value);
        }
        j := j + 1;
      }
      i := i + 1;
    }
    var v := new EKVerifier(roots, intermediates);
    return Ok(v);
  }
}
