/** The batch pair analyser: derive one XOR key per DCM/STL pair, record what is
    known about the pair, and aggregate the records of a whole batch. */
module BatchPair {
  import opened Wrappers
  import opened Bytes
  import opened Collections
  import opened Canon
  import opened Grouping
  import opened StlLayout
  import opened DcmDecoder

  // ---------------------------------------------------------------- loading

  /** The vertex payload of an STL file: the first record of every distinct vertex,
      in order of appearance. An ASCII file contributes its matched vertex records
      (the tokenising and float packing are not modelled); a binary file is walked. */
  method LoadStlVerticesRaw<K(==,!new)>(data: seq<byte>, asciiVertices: seq<Record>, key: Record -> K)
    returns (r: Result<seq<byte>, UnpackError>)
    requires forall i :: 0 <= i < |asciiVertices| ==> |asciiVertices[i]| == RecordLength
    ensures LooksAscii(data) ==>
              r == Ok(Concat(Firsts(asciiVertices, key))) &&
              |r.value| == RecordLength * |ToSet(Keys(asciiVertices, key))|
    ensures !LooksAscii(data) ==> (r.Ok? <==> WalkFits(data))
    ensures !LooksAscii(data) && r.Ok? ==>
              r.value == Concat(Firsts(CornerList(data), key)) &&
              |r.value| == RecordLength * |ToSet(Keys(CornerList(data), key))|
  {
    if LooksAscii(data) {
      var kept := KeepFirsts(asciiVertices, key);
      FirstsFrom(asciiVertices, key);
      FirstsCount(asciiVertices, key);
      var packed := PackVertices(kept);
      r := Ok(packed);
    } else {
      r := LoadStlVertices(data, key);
    }
  }

  // ---------------------------------------------------------------- one pair

  /** The metadata fields of a DCM file that the analysis carries forward. */
  datatype Metadata = Metadata(signatureHash: string, scanSource: string, facetCount: int)

  /** What the loaders produced for one pair: the DCM metadata, its decoded facet and
      vertex payloads, and the STL vertex payload. */
  datatype LoadedPair = LoadedPair(meta: Metadata, facetData: seq<byte>, dcmVertex: seq<byte>, stlVertex: seq<byte>)

  /** Why a record carries an error: the payload lengths differ, a loader raised
      (with its message), or the signature hash is not hexadecimal. */
  datatype PairError =
    | SizeMismatch(dcmLength: nat, stlLength: nat)
    | Raised(message: string)
    | BadSignatureHex

  /** The record written for one pair (paths, version strings, entropies, the facet
      byte distribution and the timing are not modelled). */
  datatype PairAnalysis = PairAnalysis(
    signatureHash: string,
    scanSource: string,
    facetCount: int,
    vertexCount: nat,
    facetBytes: nat,
    vertexBytes: nat,
    keyHash: string,
    keyFirst64Hex: string,
    facetFirst64Hex: string,
    keyXorSighash: string,
    error: Option<PairError>)

  /** Number of key and facet bytes shown in hexadecimal. */
  const ShownBytes: nat := 64

  /** The record of a pair whose analysis raised: every field empty or zero. */
  function FailedRecord(e: PairError): (r: PairAnalysis)
    ensures r.error == Some(e)
    ensures r.vertexBytes == 0 && r.vertexCount == 0 && r.facetBytes == 0
  {
    PairAnalysis("", "", 0, 0, 0, 0, "", "", "", "", Some(e))
  }

  /** The signature bytes: empty for an empty signature, None where `bytes.fromhex` raises. */
  function SignatureBytes(signatureHash: string): Option<seq<byte>>
  {
    if signatureHash == "" then Some([]) else FromHex(signatureHash)
  }

  /** The correlation string: the key prefix XOR the signature, in hex, when there is a
      signature and the key covers it; otherwise empty. */
  function KeyXorSig(key: seq<byte>, sig: seq<byte>): (r: string)
    ensures r == "" <==> sig == [] || |key| < |sig|
    ensures r != "" ==> |r| == 2 * |sig|
  {
    if sig != [] && |key| >= |sig| then Hex(ZipXor(key[..|sig|], sig)) else ""
  }

  /** XORing the correlation string's bytes with the signature gives back the key prefix. */
  lemma KeyXorSigRecoversKey(key: seq<byte>, sig: seq<byte>)
    requires sig != [] && |key| >= |sig|
    ensures FromHex(KeyXorSig(key, sig)).Some?
    ensures ZipXor(FromHex(KeyXorSig(key, sig)).value, sig) == key[..|sig|]
  {
    HexRoundTrip(ZipXor(key[..|sig|], sig));
    ZipXorSelfInverse(key[..|sig|], sig);
  }

  /** Both payloads cut to the shorter length. */
  function Common(p: LoadedPair): nat
  {
    if |p.dcmVertex| <= |p.stlVertex| then |p.dcmVertex| else |p.stlVertex|
  }

  /** The XOR key of a pair: the truncated payloads XORed byte by byte. */
  function PairKey(p: LoadedPair): (key: seq<byte>)
    ensures |key| == Common(p)
    ensures forall i :: 0 <= i < |key| ==> key[i] == p.dcmVertex[i] ^ p.stlVertex[i]
  {
    ZipXor(p.dcmVertex[..Common(p)], p.stlVertex[..Common(p)])
  }

  /** `analyze_pair`. `loaded` is the outcome of the two loaders; `md5` stands for the
      hex digest, which is not modelled. */
  function AnalyzePair(loaded: Result<LoadedPair, string>, md5: seq<byte> -> string): (r: PairAnalysis)
    ensures loaded.Err? ==> r == FailedRecord(Raised(loaded.error))
    ensures loaded.Ok? && SignatureBytes(loaded.value.meta.signatureHash).None? ==> r == FailedRecord(BadSignatureHex)
  {
    match loaded
    case Err(message) => FailedRecord(Raised(message))
    case Ok(p) =>
      match SignatureBytes(p.meta.signatureHash)
      case None => FailedRecord(BadSignatureHex)
      case Some(sig) =>
        var n := Common(p);
        var key := PairKey(p);
        PairAnalysis(
          p.meta.signatureHash, p.meta.scanSource, p.meta.facetCount,
          n / RecordLength, |p.facetData|, n,
          md5(key), Hex(Take(key, ShownBytes)), Hex(Take(p.facetData, ShownBytes)),
          KeyXorSig(key, sig),
          if |p.dcmVertex| != |p.stlVertex| then Some(PairError.SizeMismatch(|p.dcmVertex|, |p.stlVertex|)) else None)
  }

  /** What the record of a loaded pair with a readable signature says. */
  lemma AnalyzePairLoaded(p: LoadedPair, md5: seq<byte> -> string)
    requires SignatureBytes(p.meta.signatureHash).Some?
    ensures var r := AnalyzePair(Ok(p), md5);
            var sig := SignatureBytes(p.meta.signatureHash).value;
            && r.signatureHash == p.meta.signatureHash && r.scanSource == p.meta.scanSource
            && r.facetCount == p.meta.facetCount && r.facetBytes == |p.facetData|
            && r.vertexBytes == Min(|p.dcmVertex|, |p.stlVertex|)
            && r.vertexCount * RecordLength <= r.vertexBytes < (r.vertexCount + 1) * RecordLength
            && (r.error.None? <==> |p.dcmVertex| == |p.stlVertex|)
            && (r.error.Some? ==> r.error.value == PairError.SizeMismatch(|p.dcmVertex|, |p.stlVertex|))
            && r.keyHash == md5(PairKey(p))
            && |r.keyFirst64Hex| == 2 * Min(r.vertexBytes, ShownBytes)
            && r.keyFirst64Hex == Hex(Take(PairKey(p), ShownBytes))
            && r.facetFirst64Hex == Hex(Take(p.facetData, ShownBytes))
            && FromHex(r.keyFirst64Hex) == Some(Take(PairKey(p), ShownBytes))
            && FromHex(r.facetFirst64Hex) == Some(Take(p.facetData, ShownBytes))
            && (r.keyXorSighash != "" <==> sig != [] && |sig| <= r.vertexBytes)
  {
    var key := PairKey(p);
    var n := Common(p);
    var r := AnalyzePair(Ok(p), md5);
    assert r.vertexBytes == n && r.vertexCount == n / RecordLength && r.keyHash == md5(key);
    assert r.keyFirst64Hex == Hex(Take(key, ShownBytes)) && r.facetFirst64Hex == Hex(Take(p.facetData, ShownBytes));
    assert r.keyXorSighash == KeyXorSig(key, SignatureBytes(p.meta.signatureHash).value);
    HexRoundTrip(Take(key, ShownBytes));
    HexRoundTrip(Take(p.facetData, ShownBytes));
  }

  /** A record counts as successful when its error is absent or an empty message
      (Python's falsy test). */
  predicate Succeeded(r: PairAnalysis)
  {
    r.error.None? || r.error.value == Raised("")
  }

  /** A pair is analysed successfully exactly when it loaded, its signature reads as hex
      and its two payloads have the same length, or a loader raised with an empty message. */
  lemma SucceededIff(loaded: Result<LoadedPair, string>, md5: seq<byte> -> string)
    ensures Succeeded(AnalyzePair(loaded, md5)) <==>
              (loaded.Err? && loaded.error == "") ||
              (loaded.Ok? && SignatureBytes(loaded.value.meta.signatureHash).Some? &&
               |loaded.value.dcmVertex| == |loaded.value.stlVertex|)
  {
  }

  // ---------------------------------------------------------------- the batch

  /** `process_pairs`: one record per pair, in input order; a failing pair yields an
      error record and the loop goes on. */
  method ProcessPairs(pairs: seq<Result<LoadedPair, string>>, md5: seq<byte> -> string)
    returns (results: seq<PairAnalysis>)
    ensures |results| == |pairs|
    ensures forall i :: 0 <= i < |pairs| ==> results[i] == AnalyzePair(pairs[i], md5)
  {
    results := [];
    for i := 0 to |pairs|
      invariant |results| == i
      invariant forall j :: 0 <= j < i ==> results[j] == AnalyzePair(pairs[j], md5)
    {
      var analysis := AnalyzePair(pairs[i], md5);
      results := results + [analysis];
    }
  }

  /** `--limit`: no limit or 0 keeps every pair; otherwise Python's `pairs[:limit]`,
      which for a negative limit drops that many from the end. */
  function Limit<T>(pairs: seq<T>, limit: Option<int>): (r: seq<T>)
    ensures |r| <= |pairs| && r == pairs[..|r|]
    ensures limit.None? || limit == Some(0) ==> r == pairs
    ensures limit.Some? && limit.value > 0 ==> |r| == Min(limit.value, |pairs|)
    ensures limit.Some? && limit.value < 0 ==> |r| == Max(0, |pairs| + limit.value)
  {
    if limit.None? || limit.value == 0 then pairs else PyPrefix(pairs, limit.value)
  }

  // ---------------------------------------------------------------- the database

  function KeyHashOf(r: PairAnalysis): string { r.keyHash }
  function SignatureOf(r: PairAnalysis): string { r.signatureHash }
  function SourceOf(r: PairAnalysis): string { r.scanSource }
  function WholeRecord(r: PairAnalysis): PairAnalysis { r }
  predicate HasXorSig(r: PairAnalysis) { r.keyXorSighash != "" }
  /** The first 32 hex digits (16 bytes) of a field. */
  function XorSigPrefix(r: PairAnalysis): string { Take(r.keyXorSighash, 32) }
  function KeyPrefix(r: PairAnalysis): string { Take(r.keyFirst64Hex, 32) }
  function FacetPrefix(r: PairAnalysis): string { Take(r.facetFirst64Hex, 32) }

  /** The aggregate statistics over the successful records. */
  datatype KeyReport = KeyReport(
    uniqueKeys: nat,
    duplicates: seq<(string, nat)>,
    xorPatterns: multiset<string>,
    sigToKeys: map<string, seq<string>>,
    signatures: seq<string>,
    sameSigDifferentKey: nat,
    keyPrefixes: multiset<string>,
    facetPrefixes: multiset<string>,
    bySource: map<string, seq<PairAnalysis>>)

  datatype DatabaseReport = DatabaseReport(total: nat, successful: nat, errors: nat, details: Option<KeyReport>)

  /** The successful records of a batch, in order. */
  function SuccessfulOf(results: seq<PairAnalysis>): (s: seq<PairAnalysis>)
    ensures forall r :: r in s <==> r in results && Succeeded(r)
  {
    Filter(results, Succeeded)
  }

  /** The key-hash figures: distinct hashes, and the repeated ones (computed only when
      some hash repeats, which loses nothing). */
  ghost predicate HashFiguresOf(succ: seq<PairAnalysis>, k: KeyReport)
  {
    var hashes := Keys(succ, KeyHashOf);
    && k.uniqueKeys == |ToSet(hashes)|
    && k.duplicates == Duplicates(hashes)
  }

  /** The signature-to-key grouping and the count of signatures with several keys. */
  ghost predicate SignatureFiguresOf(succ: seq<PairAnalysis>, k: KeyReport)
  {
    && GroupsOf(succ, SignatureOf, KeyHashOf, k.sigToKeys, k.signatures)
    && NoDup(k.signatures)
    && k.sameSigDifferentKey == CountMixed(k.sigToKeys, k.signatures)
  }

  /** The prefix counters and the grouping by scan source. */
  ghost predicate PatternFiguresOf(succ: seq<PairAnalysis>, k: KeyReport)
  {
    && k.xorPatterns == multiset(Keys(Filter(succ, HasXorSig), XorSigPrefix))
    && k.keyPrefixes == multiset(Keys(succ, KeyPrefix))
    && k.facetPrefixes == multiset(Keys(succ, FacetPrefix))
    && k.bySource.Keys == ToSet(Keys(succ, SourceOf))
    && forall s :: s in k.bySource ==> k.bySource[s] == Group(succ, SourceOf, WholeRecord, s)
  }

  /** What the statistics over the successful records `succ` are. */
  ghost predicate KeyReportOf(succ: seq<PairAnalysis>, k: KeyReport)
  {
    HashFiguresOf(succ, k) && SignatureFiguresOf(succ, k) && PatternFiguresOf(succ, k)
  }

  method HashFigures(succ: seq<PairAnalysis>) returns (unique: nat, duplicates: seq<(string, nat)>)
    ensures unique == |ToSet(Keys(succ, KeyHashOf))|
    ensures duplicates == Duplicates(Keys(succ, KeyHashOf))
  {
    var hashes := Keys(succ, KeyHashOf);
    unique := |ToSet(hashes)|;
    duplicates := [];
    if unique < |succ| {
      duplicates := Duplicates(hashes);
    } else {
      CardToSet(hashes);
      CardToSetIffNoDup(hashes);
      DuplicatesEmpty(hashes);
    }
  }

  /** The key statistics of the successful records. */
  method KeyStatistics(succ: seq<PairAnalysis>) returns (k: KeyReport)
    ensures KeyReportOf(succ, k)
  {
    var unique, duplicates := HashFigures(succ);
    var sigToKeys, signatures := GroupBy(succ, SignatureOf, KeyHashOf);
    var mixed := CountMixedGroups(sigToKeys, signatures);
    var bySource, _ := GroupBy(succ, SourceOf, WholeRecord);
    k := KeyReport(unique, duplicates, multiset(Keys(Filter(succ, HasXorSig), XorSigPrefix)),
                   sigToKeys, signatures, mixed,
                   multiset(Keys(succ, KeyPrefix)), multiset(Keys(succ, FacetPrefix)), bySource);
    assert HashFiguresOf(succ, k);
    assert SignatureFiguresOf(succ, k);
  }

  /** `analyze_database`: count the successful records and, when there are any,
      compute the key statistics over them. */
  method AnalyzeDatabase(results: seq<PairAnalysis>) returns (rep: DatabaseReport)
    ensures rep.total == |results|
    ensures rep.successful == |SuccessfulOf(results)| <= rep.total
    ensures rep.errors == rep.total - rep.successful
    ensures rep.details.None? <==> SuccessfulOf(results) == []
    ensures rep.details.Some? ==> KeyReportOf(SuccessfulOf(results), rep.details.value)
  {
    var succ := SuccessfulOf(results);
    if succ == [] {
      rep := DatabaseReport(|results|, 0, |results|, None);
    } else {
      var k := KeyStatistics(succ);
      rep := DatabaseReport(|results|, |succ|, |results| - |succ|, Some(k));
    }
  }

  /** There are never more distinct keys than successful records, and duplicates are
      reported exactly when some key repeats. */
  lemma UniqueKeysBound(succ: seq<PairAnalysis>, k: KeyReport)
    requires HashFiguresOf(succ, k)
    ensures k.uniqueKeys <= |succ|
    ensures k.duplicates == [] <==> k.uniqueKeys == |succ|
    ensures forall d :: d in k.duplicates ==> d.1 > 1 && d.1 == multiset(Keys(succ, KeyHashOf))[d.0]
  {
    var hashes := Keys(succ, KeyHashOf);
    CardToSet(hashes);
    CardToSetIffNoDup(hashes);
    DuplicatesEmpty(hashes);
  }

  /** No signature maps to two different keys exactly when records with the same
      signature always have the same key hash. */
  lemma SameSignatureSameKey(succ: seq<PairAnalysis>, k: KeyReport)
    requires SignatureFiguresOf(succ, k)
    ensures k.sameSigDifferentKey == 0 <==>
              forall i, j :: 0 <= i < |succ| && 0 <= j < |succ| && succ[i].signatureHash == succ[j].signatureHash ==>
                succ[i].keyHash == succ[j].keyHash
  {
    NoMixedIffKeyDeterminesValue(succ, SignatureOf, KeyHashOf, k.sigToKeys, k.signatures);
    assert KeyDeterminesValue(succ, SignatureOf, KeyHashOf) <==>
             forall i, j :: 0 <= i < |succ| && 0 <= j < |succ| && succ[i].signatureHash == succ[j].signatureHash ==>
               succ[i].keyHash == succ[j].keyHash;
  }

  /** Every successful record lies in the group of its own scan source. */
  lemma BySourceCovers(succ: seq<PairAnalysis>, k: KeyReport)
    requires PatternFiguresOf(succ, k)
    ensures forall i :: 0 <= i < |succ| ==> succ[i].scanSource in k.bySource && succ[i] in k.bySource[succ[i].scanSource]
  {
    forall i | 0 <= i < |succ|
      ensures succ[i].scanSource in k.bySource && succ[i] in k.bySource[succ[i].scanSource]
    {
      assert Keys(succ, SourceOf)[i] == succ[i].scanSource;
      GroupMembers(succ, SourceOf, WholeRecord, succ[i].scanSource);
    }
  }

  /** A scan-source group holds only successful records of that source, so the groups
      are disjoint. */
  lemma BySourceSeparates(succ: seq<PairAnalysis>, k: KeyReport)
    requires PatternFiguresOf(succ, k)
    ensures forall s, r :: s in k.bySource && r in k.bySource[s] ==> r in succ && r.scanSource == s
  {
    forall s, r | s in k.bySource && r in k.bySource[s]
      ensures r in succ && r.scanSource == s
    {
      GroupMembers(succ, SourceOf, WholeRecord, s);
    }
  }
}
