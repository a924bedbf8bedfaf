/**
 * What the EK verifier's trust-store walk and result shaping promise, proved
 * about the pure definitions of EkCertModel: routing by extension, the
 * per-file error policy, that pools only grow and only from the right
 * directory, the directory error policy, and the results record.
 */
module EkCertProperties {
  import opened Common
  import opened Text
  import opened EkCertModel

  /** The certificate a parse outcome carries, if any. */
  function CertOf(o: ParseOutcome): set<Certificate>
  {
    match o
    case Parsed(c) => {c}
    case NonFatal(c, _) => {c}
    case Fatal(_) => {}
  }

  /** Everything one listing entry could contribute: nothing unless it is a
      routed file that can be read; then the parsed certificate, and for a
      `.crt`/`.cer` file also its PEM certificates. */
  function Candidates(fs: FileSystem, dir: Path, info: FileInfo, parse: CertParser, pem: PemDecoder): set<Certificate>
  {
    if !Routed(info) then {}
    else match ReadFile(fs, dir + [info.name])
      case Err(_) => {}
      case Ok(d) => CertOf(parse(d)) + (if IsDerOrPemName(info.name) then Elements(pem(d)) else {})
  }

  /** Everything the entries of a listing could contribute. */
  ghost function ListingCandidates(fs: FileSystem, dir: Path, files: seq<FileInfo>, parse: CertParser, pem: PemDecoder): set<Certificate>
  {
    set i, c | 0 <= i < |files| && c in Candidates(fs, dir, files[i], parse, pem) :: c
  }

  /** Everything the files of a directory could contribute. */
  ghost function DirCandidates(fs: FileSystem, dir: Path, parse: CertParser, pem: PemDecoder): set<Certificate>
  {
    match ReadDir(fs, dir)
    case Err(_) => {}
    case Ok(files) => ListingCandidates(fs, dir, files, parse, pem)
  }

  /** One file: the pool only grows, and only by what that file holds; a file
      that fails adds nothing; a skipped entry changes nothing. */
  lemma AddFileEffect(fs: FileSystem, dir: Path, info: FileInfo, pool: set<Certificate>, parse: CertParser, pem: PemDecoder)
    ensures var w := AddFile(fs, dir, info, pool, parse, pem);
            && pool <= w.value <= pool + Candidates(fs, dir, info, parse, pem)
            && (w.error.Some? ==> w.value == pool)
            && (!Routed(info) ==> w == Walk(pool, None))
  {
  }

  /** The per-extension policy: a `.der` file with a fatal parse error is an
      error naming the file, while a non-fatal error still adds the
      certificate; a `.crt`/`.cer` file with a fatal DER error is an error only
      when PEM decoding adds nothing, and one with a non-fatal DER error adds
      nothing and is no error. This is AddFile's definition laid out as a
      table by extension and parse outcome, for reading; the facts that go
      beyond it are in AddFileEffect and CertsFromFilesBounds. */
  lemma FileRouting(fs: FileSystem, dir: Path, info: FileInfo, pool: set<Certificate>, parse: CertParser, pem: PemDecoder, d: Bytes)
    requires !info.isDir && ReadFile(fs, dir + [info.name]) == Ok(d)
    ensures var w := AddFile(fs, dir, info, pool, parse, pem);
            && (IsDerName(info.name) ==>
                  match parse(d)
                  case Fatal(reason) => w == Walk(pool, Some(ParseFailed(info.name, reason)))
                  case Parsed(c) => w == Walk(pool + {c}, None)
                  case NonFatal(c, _) => w == Walk(pool + {c}, None))
            && (IsDerOrPemName(info.name) ==>
                  match parse(d)
                  case Fatal(reason) =>
                    w == (if |pem(d)| == 0 then Walk(pool, Some(ParseFailed(info.name, reason)))
                          else Walk(pool + Elements(pem(d)), None))
                  case Parsed(c) => w == Walk(pool + {c}, None)
                  case NonFatal(_, _) => w == Walk(pool, None))
            && (!IsDerName(info.name) && !IsDerOrPemName(info.name) ==> w == Walk(pool, None))
  {
  }

  /** A read error on a routed file is returned as it is. */
  lemma UnreadableFileFails(fs: FileSystem, dir: Path, info: FileInfo, pool: set<Certificate>, parse: CertParser, pem: PemDecoder)
    requires Routed(info) && ReadFile(fs, dir + [info.name]).Err?
    ensures AddFile(fs, dir, info, pool, parse, pem) == Walk(pool, Some(ReadFile(fs, dir + [info.name]).error))
  {
  }

  /** `parseCertsToPool` over a listing: the pool only grows, only by what the
      listing's routed files hold. */
  lemma {:induction false} CertsFromFilesBounds(fs: FileSystem, dir: Path, files: seq<FileInfo>, pool: set<Certificate>, parse: CertParser, pem: PemDecoder)
    ensures var w := CertsFromFiles(fs, dir, files, pool, parse, pem);
            pool <= w.value <= pool + ListingCandidates(fs, dir, files, parse, pem)
    decreases |files|
  {
    if |files| > 0 {
      var w := AddFile(fs, dir, files[0], pool, parse, pem);
      AddFileEffect(fs, dir, files[0], pool, parse, pem);
      assert Candidates(fs, dir, files[0], parse, pem) <= ListingCandidates(fs, dir, files, parse, pem);
      if w.error.None? {
        CertsFromFilesBounds(fs, dir, files[1..], w.value, parse, pem);
        forall c | c in ListingCandidates(fs, dir, files[1..], parse, pem)
          ensures c in ListingCandidates(fs, dir, files, parse, pem)
        {
          var i :| 0 <= i < |files[1..]| && c in Candidates(fs, dir, files[1..][i], parse, pem);
          assert files[1..][i] == files[i + 1];
        }
      }
    }
  }

  /** The routed entries of a listing, in order. */
  function RoutedOnly(files: seq<FileInfo>): (r: seq<FileInfo>)
    ensures forall i :: 0 <= i < |r| ==> Routed(r[i])
    ensures |r| <= |files|
    decreases |files|
  {
    if |files| == 0 then []
    else if Routed(files[0]) then [files[0]] + RoutedOnly(files[1..])
    else RoutedOnly(files[1..])
  }

  /** Subdirectories and files with other extensions are ignored: the walk
      over a listing is the walk over its routed entries alone. */
  lemma {:induction false} IgnoresUnrouted(fs: FileSystem, dir: Path, files: seq<FileInfo>, pool: set<Certificate>, parse: CertParser, pem: PemDecoder)
    ensures CertsFromFiles(fs, dir, files, pool, parse, pem) == CertsFromFiles(fs, dir, RoutedOnly(files), pool, parse, pem)
    decreases |files|
  {
    if |files| > 0 {
      var w := AddFile(fs, dir, files[0], pool, parse, pem);
      if Routed(files[0]) {
        var r := RoutedOnly(files);
        assert r[0] == files[0] && r[1..] == RoutedOnly(files[1..]);
        if w.error.None? {
          IgnoresUnrouted(fs, dir, files[1..], w.value, parse, pem);
        }
      } else {
        IgnoresUnrouted(fs, dir, files[1..], pool, parse, pem);
      }
    }
  }

  /** A parse failure reported by the walk names a routed file of the listing. */
  lemma {:induction false} ParseFailureNamesFile(fs: FileSystem, dir: Path, files: seq<FileInfo>, pool: set<Certificate>, parse: CertParser, pem: PemDecoder)
    ensures var w := CertsFromFiles(fs, dir, files, pool, parse, pem);
            w.error.Some? && w.error.value.ParseFailed? ==>
              exists i :: 0 <= i < |files| && files[i].name == w.error.value.name && Routed(files[i])
    decreases |files|
  {
    if |files| > 0 {
      var w := AddFile(fs, dir, files[0], pool, parse, pem);
      if w.error.None? {
        ParseFailureNamesFile(fs, dir, files[1..], w.value, parse, pem);
        var w' := CertsFromFiles(fs, dir, files[1..], w.value, parse, pem);
        if w'.error.Some? && w'.error.value.ParseFailed? {
          var i :| 0 <= i < |files[1..]| && files[1..][i].name == w'.error.value.name && Routed(files[1..][i]);
          assert files[i + 1] == files[1..][i];
        }
      }
    }
  }

  /** `readCertificates` routes by directory: roots grow only from `RootCA`
      files and intermediates only from `IntermediateCA` files. */
  lemma VendorRouting(fs: FileSystem, dir: Path, pools: Pools, parse: CertParser, pem: PemDecoder)
    ensures var w := CertsFromVendor(fs, dir, pools, parse, pem);
            && pools.roots <= w.value.roots <= pools.roots + DirCandidates(fs, dir + [RootCA], parse, pem)
            && pools.intermediates <= w.value.intermediates <= pools.intermediates + DirCandidates(fs, dir + [IntermediateCA], parse, pem)
  {
    var root := dir + [RootCA];
    var inter := dir + [IntermediateCA];
    if IsDir(fs, root) {
      CertsFromFilesBounds(fs, root, ReadDir(fs, root).value, pools.roots, parse, pem);
      var w := CertsFromFiles(fs, root, ReadDir(fs, root).value, pools.roots, parse, pem);
      if IsDir(fs, inter) {
        CertsFromFilesBounds(fs, inter, ReadDir(fs, inter).value, pools.intermediates, parse, pem);
      }
    } else if IsDir(fs, inter) {
      CertsFromFilesBounds(fs, inter, ReadDir(fs, inter).value, pools.intermediates, parse, pem);
    }
  }

  /** `readCertificates`' error policy: a missing `RootCA` or `IntermediateCA`
      is no error, any other failure to list them is returned, and a root
      listing error stops the vendor before its intermediates. In particular
      a vendor with a `RootCA` directory and no `IntermediateCA` gets exactly
      its root walk, and an unlistable `IntermediateCA` after a clean root
      step is that listing's error. */
  lemma VendorErrorPolicy(fs: FileSystem, dir: Path, pools: Pools, parse: CertParser, pem: PemDecoder)
    ensures var w := CertsFromVendor(fs, dir, pools, parse, pem);
            var root := dir + [RootCA];
            var inter := dir + [IntermediateCA];
            && (root !in fs && inter !in fs ==> w == Walk(pools, None))
            && (root !in fs ==> w == CertsFromIntermediates(fs, dir, pools, parse, pem))
            && (IsDir(fs, root) && inter !in fs ==>
                  w == (var rw := CertsFromFiles(fs, root, ReadDir(fs, root).value, pools.roots, parse, pem);
                        Walk(pools.(roots := rw.value), rw.error)))
            && (root in fs && !IsDir(fs, root) ==> w == Walk(pools, Some(IoError(root))))
            && (var rootClean := root !in fs || (IsDir(fs, root) && CertsFromFiles(fs, root, ReadDir(fs, root).value, pools.roots, parse, pem).error.None?);
                rootClean && inter in fs && !IsDir(fs, inter) ==> w.error == Some(IoError(inter)))
            && (inter in fs && !IsDir(fs, inter) ==> w.error.Some?)
            && (w.error.None? ==> (root !in fs || IsDir(fs, root)) && (inter !in fs || IsDir(fs, inter)))
  {
  }

  /** The vendor entries of one certificate path that are directories, in order. */
  function DirsOnly(entries: seq<FileInfo>): (r: seq<FileInfo>)
    ensures forall i :: 0 <= i < |r| ==> r[i].isDir
    decreases |entries|
  {
    if |entries| == 0 then []
    else if entries[0].isDir then [entries[0]] + DirsOnly(entries[1..])
    else DirsOnly(entries[1..])
  }

  /** `NewEKVerifier` skips entries of a certificate path that are not
      directories. */
  lemma {:induction false} SkipsNonDirectories(fs: FileSystem, dir: Path, entries: seq<FileInfo>, pools: Pools, parse: CertParser, pem: PemDecoder)
    ensures CertsFromVendors(fs, dir, entries, pools, parse, pem) == CertsFromVendors(fs, dir, DirsOnly(entries), pools, parse, pem)
    decreases |entries|
  {
    if |entries| > 0 {
      if entries[0].isDir {
        var r := DirsOnly(entries);
        assert r[0] == entries[0] && r[1..] == DirsOnly(entries[1..]);
        var w := CertsFromVendor(fs, dir + [entries[0].name], pools, parse, pem);
        if w.error.None? {
          SkipsNonDirectories(fs, dir, entries[1..], w.value, parse, pem);
        }
      } else {
        SkipsNonDirectories(fs, dir, entries[1..], pools, parse, pem);
      }
    }
  }

  /** `NewEKVerifier` fails when any of the given certificate paths cannot be
      listed (the first failure in order is the one returned). */
  lemma {:induction false} UnreadablePathFails(fs: FileSystem, certsPath: seq<Path>, pools: Pools, parse: CertParser, pem: PemDecoder, k: nat)
    requires k < |certsPath| && !IsDir(fs, certsPath[k])
    ensures CertsFromPaths(fs, certsPath, pools, parse, pem).Err?
    decreases |certsPath|
  {
    if k > 0 {
      match ReadDir(fs, certsPath[0])
      case Err(_) =>
      case Ok(entries) =>
        match CertsFromVendors(fs, certsPath[0], entries, pools, parse, pem)
        case Err(_) =>
        case Ok(next) =>
          assert certsPath[1..][k - 1] == certsPath[k];
          UnreadablePathFails(fs, certsPath[1..], next, parse, pem, k - 1);
    }
  }

  /** Whether one listing entry stops `parseCertsToPool`. Whether it does,
      and with which error, does not depend on the pool (AddFileErrorIndependent). */
  predicate FileFails(fs: FileSystem, dir: Path, info: FileInfo, parse: CertParser, pem: PemDecoder)
  {
    AddFile(fs, dir, info, {}, parse, pem).error.Some?
  }

  /** Whether a directory cannot be listed, or one of its files stops
      `parseCertsToPool`. */
  predicate ListingFails(fs: FileSystem, dir: Path, parse: CertParser, pem: PemDecoder)
  {
    match ReadDir(fs, dir)
    case Err(_) => true
    case Ok(files) => exists i :: 0 <= i < |files| && FileFails(fs, dir, files[i], parse, pem)
  }

  /** Whether `readCertificates` fails on a vendor directory: a `RootCA` or
      `IntermediateCA` that exists but fails. */
  predicate VendorFails(fs: FileSystem, dir: Path, parse: CertParser, pem: PemDecoder)
  {
    || (dir + [RootCA] in fs && ListingFails(fs, dir + [RootCA], parse, pem))
    || (dir + [IntermediateCA] in fs && ListingFails(fs, dir + [IntermediateCA], parse, pem))
  }

  /** Whether `NewEKVerifier` fails on one certificate path: it cannot be
      listed, or one of its vendor directories fails. */
  predicate PathFails(fs: FileSystem, dir: Path, parse: CertParser, pem: PemDecoder)
  {
    match ReadDir(fs, dir)
    case Err(_) => true
    case Ok(entries) => exists j :: 0 <= j < |entries| && entries[j].isDir && VendorFails(fs, dir + [entries[j].name], parse, pem)
  }

  /** A file's error does not depend on the pool it is added to. */
  lemma AddFileErrorIndependent(fs: FileSystem, dir: Path, info: FileInfo, p1: set<Certificate>, p2: set<Certificate>, parse: CertParser, pem: PemDecoder)
    ensures AddFile(fs, dir, info, p1, parse, pem).error == AddFile(fs, dir, info, p2, parse, pem).error
  {
  }

  /** `parseCertsToPool` stops with an error exactly when one of the listing's
      files fails, and the error it returns does not depend on the pool. */
  lemma {:induction false} CertsFromFilesFails(fs: FileSystem, dir: Path, files: seq<FileInfo>, pool: set<Certificate>, parse: CertParser, pem: PemDecoder)
    ensures CertsFromFiles(fs, dir, files, pool, parse, pem).error.Some? <==>
              exists i :: 0 <= i < |files| && FileFails(fs, dir, files[i], parse, pem)
    ensures CertsFromFiles(fs, dir, files, pool, parse, pem).error == CertsFromFiles(fs, dir, files, {}, parse, pem).error
    decreases |files|
  {
    if |files| > 0 {
      var w := AddFile(fs, dir, files[0], pool, parse, pem);
      var w0 := AddFile(fs, dir, files[0], {}, parse, pem);
      AddFileErrorIndependent(fs, dir, files[0], pool, {}, parse, pem);
      if w.error.None? {
        CertsFromFilesFails(fs, dir, files[1..], w.value, parse, pem);
        CertsFromFilesFails(fs, dir, files[1..], w0.value, parse, pem);
        if exists i :: 0 <= i < |files[1..]| && FileFails(fs, dir, files[1..][i], parse, pem) {
          var i :| 0 <= i < |files[1..]| && FileFails(fs, dir, files[1..][i], parse, pem);
          assert files[i + 1] == files[1..][i];
        }
        if exists i :: 0 <= i < |files| && FileFails(fs, dir, files[i], parse, pem) {
          var i :| 0 <= i < |files| && FileFails(fs, dir, files[i], parse, pem);
          assert i > 0;
          assert files[1..][i - 1] == files[i];
        }
      } else {
        assert FileFails(fs, dir, files[0], parse, pem);
      }
    }
  }

  /** `readCertificates` fails exactly when its `RootCA` or `IntermediateCA`
      exists and fails, and its error does not depend on the pools. */
  lemma VendorFailsExactly(fs: FileSystem, dir: Path, pools: Pools, parse: CertParser, pem: PemDecoder)
    ensures CertsFromVendor(fs, dir, pools, parse, pem).error.Some? <==> VendorFails(fs, dir, parse, pem)
    ensures CertsFromVendor(fs, dir, pools, parse, pem).error == CertsFromVendor(fs, dir, Pools({}, {}), parse, pem).error
  {
    var root := dir + [RootCA];
    var inter := dir + [IntermediateCA];
    if IsDir(fs, root) {
      CertsFromFilesFails(fs, root, ReadDir(fs, root).value, pools.roots, parse, pem);
      CertsFromFilesFails(fs, root, ReadDir(fs, root).value, {}, parse, pem);
    }
    if IsDir(fs, inter) {
      CertsFromFilesFails(fs, inter, ReadDir(fs, inter).value, pools.intermediates, parse, pem);
      CertsFromFilesFails(fs, inter, ReadDir(fs, inter).value, {}, parse, pem);
    }
  }

  /** The vendor loop fails exactly when one of the directory entries is a
      failing vendor, whatever the pools it starts from. */
  lemma {:induction false} CertsFromVendorsFails(fs: FileSystem, dir: Path, entries: seq<FileInfo>, pools: Pools, parse: CertParser, pem: PemDecoder)
    ensures CertsFromVendors(fs, dir, entries, pools, parse, pem).Err? <==>
              exists j :: 0 <= j < |entries| && entries[j].isDir && VendorFails(fs, dir + [entries[j].name], parse, pem)
    decreases |entries|
  {
    if |entries| > 0 {
      var next := pools;
      if entries[0].isDir {
        VendorFailsExactly(fs, dir + [entries[0].name], pools, parse, pem);
        next := CertsFromVendor(fs, dir + [entries[0].name], pools, parse, pem).value;
      }
      if !entries[0].isDir || !VendorFails(fs, dir + [entries[0].name], parse, pem) {
        CertsFromVendorsFails(fs, dir, entries[1..], next, parse, pem);
        if exists j :: 0 <= j < |entries[1..]| && entries[1..][j].isDir && VendorFails(fs, dir + [entries[1..][j].name], parse, pem) {
          var j :| 0 <= j < |entries[1..]| && entries[1..][j].isDir && VendorFails(fs, dir + [entries[1..][j].name], parse, pem);
          assert entries[j + 1] == entries[1..][j];
        }
        if exists j :: 0 <= j < |entries| && entries[j].isDir && VendorFails(fs, dir + [entries[j].name], parse, pem) {
          var j :| 0 <= j < |entries| && entries[j].isDir && VendorFails(fs, dir + [entries[j].name], parse, pem);
          assert j > 0;
          assert entries[1..][j - 1] == entries[j];
        }
      }
    }
  }

  /** `NewEKVerifier` aborts on the first error from any path or vendor: the
      build fails exactly when some certificate path cannot be listed, or some
      vendor directory under one has a `RootCA` or `IntermediateCA` that
      cannot be listed or holds a file that cannot be read or parsed. */
  lemma {:induction false} TrustStoreFails(fs: FileSystem, certsPath: seq<Path>, pools: Pools, parse: CertParser, pem: PemDecoder)
    ensures CertsFromPaths(fs, certsPath, pools, parse, pem).Err? <==>
              exists k :: 0 <= k < |certsPath| && PathFails(fs, certsPath[k], parse, pem)
    decreases |certsPath|
  {
    if |certsPath| > 0 {
      match ReadDir(fs, certsPath[0])
      case Err(_) =>
        assert PathFails(fs, certsPath[0], parse, pem);
      case Ok(entries) =>
        CertsFromVendorsFails(fs, certsPath[0], entries, pools, parse, pem);
        match CertsFromVendors(fs, certsPath[0], entries, pools, parse, pem)
        case Err(_) =>
          assert PathFails(fs, certsPath[0], parse, pem);
        case Ok(next) =>
          assert !PathFails(fs, certsPath[0], parse, pem);
          TrustStoreFails(fs, certsPath[1..], next, parse, pem);
          if exists k :: 0 <= k < |certsPath[1..]| && PathFails(fs, certsPath[1..][k], parse, pem) {
            var k :| 0 <= k < |certsPath[1..]| && PathFails(fs, certsPath[1..][k], parse, pem);
            assert certsPath[k + 1] == certsPath[1..][k];
          }
          if exists k :: 0 <= k < |certsPath| && PathFails(fs, certsPath[k], parse, pem) {
            var k :| 0 <= k < |certsPath| && PathFails(fs, certsPath[k], parse, pem);
            assert k > 0;
            assert certsPath[1..][k - 1] == certsPath[k];
          }
    }
  }

  /** Everything the `<sub>` directories of the vendors under `dir` could
      contribute. */
  ghost function VendorCandidates(fs: FileSystem, dir: Path, entries: seq<FileInfo>, sub: string, parse: CertParser, pem: PemDecoder): set<Certificate>
  {
    set i, c | 0 <= i < |entries| && c in DirCandidates(fs, dir + [entries[i].name] + [sub], parse, pem) :: c
  }

  /** The pools only grow while walking the vendors of one path, roots only
      from `RootCA` files and intermediates only from `IntermediateCA` files. */
  lemma {:induction false} VendorsBounds(fs: FileSystem, dir: Path, entries: seq<FileInfo>, pools: Pools, parse: CertParser, pem: PemDecoder)
    ensures var r := CertsFromVendors(fs, dir, entries, pools, parse, pem);
            r.Ok? ==>
              && pools.roots <= r.value.roots <= pools.roots + VendorCandidates(fs, dir, entries, RootCA, parse, pem)
              && pools.intermediates <= r.value.intermediates <= pools.intermediates + VendorCandidates(fs, dir, entries, IntermediateCA, parse, pem)
    decreases |entries|
  {
    if |entries| > 0 {
      var next := pools;
      if entries[0].isDir {
        var w := CertsFromVendor(fs, dir + [entries[0].name], pools, parse, pem);
        VendorRouting(fs, dir + [entries[0].name], pools, parse, pem);
        assert DirCandidates(fs, dir + [entries[0].name] + [RootCA], parse, pem) <= VendorCandidates(fs, dir, entries, RootCA, parse, pem);
        assert DirCandidates(fs, dir + [entries[0].name] + [IntermediateCA], parse, pem) <= VendorCandidates(fs, dir, entries, IntermediateCA, parse, pem);
        next := w.value;
      }
      VendorsBounds(fs, dir, entries[1..], next, parse, pem);
      forall sub, c | c in VendorCandidates(fs, dir, entries[1..], sub, parse, pem)
        ensures c in VendorCandidates(fs, dir, entries, sub, parse, pem)
      {
        var i :| 0 <= i < |entries[1..]| && c in DirCandidates(fs, dir + [entries[1..][i].name] + [sub], parse, pem);
        assert entries[1..][i] == entries[i + 1];
      }
    }
  }

  /** Everything the `<sub>` directories of all vendors of all certificate
      paths could contribute. */
  ghost function TreeCandidates(fs: FileSystem, certsPath: seq<Path>, sub: string, parse: CertParser, pem: PemDecoder): set<Certificate>
  {
    set k, c | 0 <= k < |certsPath| && c in PathCandidates(fs, certsPath[k], sub, parse, pem) :: c
  }

  ghost function PathCandidates(fs: FileSystem, dir: Path, sub: string, parse: CertParser, pem: PemDecoder): set<Certificate>
  {
    match ReadDir(fs, dir)
    case Err(_) => {}
    case Ok(entries) => VendorCandidates(fs, dir, entries, sub, parse, pem)
  }

  /** The trust store is sound: every root comes from some
      `<path>/<vendor>/RootCA` file and every intermediate from some
      `<path>/<vendor>/IntermediateCA` file. */
  lemma {:induction false} TrustStoreSound(fs: FileSystem, certsPath: seq<Path>, pools: Pools, parse: CertParser, pem: PemDecoder)
    ensures var r := CertsFromPaths(fs, certsPath, pools, parse, pem);
            r.Ok? ==>
              && pools.roots <= r.value.roots <= pools.roots + TreeCandidates(fs, certsPath, RootCA, parse, pem)
              && pools.intermediates <= r.value.intermediates <= pools.intermediates + TreeCandidates(fs, certsPath, IntermediateCA, parse, pem)
    decreases |certsPath|
  {
    if |certsPath| > 0 {
      match ReadDir(fs, certsPath[0])
      case Err(_) =>
      case Ok(entries) =>
        VendorsBounds(fs, certsPath[0], entries, pools, parse, pem);
        match CertsFromVendors(fs, certsPath[0], entries, pools, parse, pem)
        case Err(_) =>
        case Ok(next) =>
          TrustStoreSound(fs, certsPath[1..], next, parse, pem);
          forall sub, c | c in PathCandidates(fs, certsPath[0], sub, parse, pem)
            ensures c in TreeCandidates(fs, certsPath, sub, parse, pem)
          {
          }
          forall sub, c | c in TreeCandidates(fs, certsPath[1..], sub, parse, pem)
            ensures c in TreeCandidates(fs, certsPath, sub, parse, pem)
          {
            var k :| 0 <= k < |certsPath[1..]| && c in PathCandidates(fs, certsPath[1..][k], sub, parse, pem);
            assert certsPath[1..][k] == certsPath[k + 1];
          }
    }
  }

  /** `VerifyEKCert`: a fatal parse error is returned as an error; otherwise
      `Succeeded` and `ChainVerified` both hold exactly when chain
      verification succeeded, a failure carries its error text and no chain,
      and a success carries one summary per certificate of the first chain. */
  lemma VerifyEkCertOutcome(pools: Pools, certBytes: Bytes, parse: CertParser, verify: ChainVerifier)
    ensures var r := VerifyEkCert(pools, certBytes, parse, verify);
            && (r.Err? <==> parse(certBytes).Fatal?)
            && (r.Ok? ==>
                  var c := parse(certBytes).cert;
                  var outcome := verify(c.(unhandledCriticalExtensions := []), VerifyOptions(pools.roots, pools.intermediates, [ExtKeyUsageAny]));
                  && r.value.succeeded == r.value.chainVerified == outcome.Verified?
                  && (outcome.VerifyFailed? ==> r.value.verificationError == outcome.message && r.value.chain == [])
                  && (outcome.Verified? ==> r.value.verificationError == "" && |r.value.chain| == |outcome.chain|))
  {
  }

  /** Unhandled critical extensions do not affect the verdict: two inputs
      whose certificates differ only there verify alike. */
  lemma UnhandledExtensionsIgnored(pools: Pools, b1: Bytes, b2: Bytes, parse: CertParser, verify: ChainVerifier)
    requires !parse(b1).Fatal? && !parse(b2).Fatal?
    requires parse(b1).cert.(unhandledCriticalExtensions := []) == parse(b2).cert.(unhandledCriticalExtensions := [])
    ensures VerifyEkCert(pools, b1, parse, verify) == VerifyEkCert(pools, b2, parse, verify)
  {
  }

  /** The two agree on every input the parser accepts, and on a fatal parse
      error the code as written dereferences nil where the intended version
      returns the error. */
  lemma NilDereferenceOnFatalParse(pools: Pools, certBytes: Bytes, parse: CertParser, verify: ChainVerifier)
    ensures parse(certBytes).Fatal? <==> VerifyEkCertAsWritten(pools, certBytes, parse, verify) == NilDereference
    ensures parse(certBytes).Fatal? ==> VerifyEkCert(pools, certBytes, parse, verify) == Err(CertificateError(parse(certBytes).reason))
    ensures !parse(certBytes).Fatal? ==> VerifyEkCertAsWritten(pools, certBytes, parse, verify) == Returned(VerifyEkCert(pools, certBytes, parse, verify))
  {
  }

  /** A concrete input that shows it: an empty buffer the parser rejects. */
  lemma NilDereferenceExample(pools: Pools, verify: ChainVerifier)
    ensures var parse: CertParser := b => if b == [] then Fatal("asn1: syntax error: sequence truncated") else Parsed(Certificate(b, Name("", []), 0, []));
            && VerifyEkCertAsWritten(pools, [], parse, verify) == NilDereference
            && VerifyEkCert(pools, [], parse, verify).Err?
  {
  }
}
