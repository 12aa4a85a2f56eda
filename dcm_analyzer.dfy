/** The structural analyser of a DCM file's payloads: byte distribution, marker and
    nibble statistics of the facet payload, and chunk repetition in the vertex payload. */
module DcmAnalyzer {
  import opened Wrappers
  import opened Bytes
  import opened Collections
  import opened Grouping
  import opened Segmentation

  // ---------------------------------------------------------------- parsing

  /** The parsed file (paths, versions, schema and properties are not modelled). */
  datatype DcmAnalysis = DcmAnalysis(
    facetCount: int,
    facetColor: int,
    facetBytes: nat,
    vertexBytes: nat,
    facetData: seq<byte>,
    vertexData: seq<byte>,
    signatureHash: string)

  /** The analysis built from the element attributes and the decoded payloads. The
      declared `base64_encoded_bytes` attributes are read but take no part. */
  function ParseDcm(facetCount: int, facetColor: int, declaredFacetBytes: int, declaredVertexBytes: int,
                    facetData: seq<byte>, vertexData: seq<byte>, signatureHash: string): (a: DcmAnalysis)
    ensures a.facetBytes == |a.facetData| && a.vertexBytes == |a.vertexData|
    ensures a.facetData == facetData && a.vertexData == vertexData
  {
    DcmAnalysis(facetCount, facetColor, |facetData|, |vertexData|, facetData, vertexData, signatureHash)
  }

  // ---------------------------------------------------------------- byte distribution

  /** `Counter(data)` reduced to what the report uses. */
  datatype ByteStats = ByteStats(
    totalBytes: nat,
    uniqueValues: nat,
    counts: multiset<nat>,
    minValue: nat,
    maxValue: nat,
    lowValueCount: nat)

  /** `sum(counter[i] for i in range(k))`. */
  function CountBelow(counts: multiset<nat>, k: nat): nat
  {
    if k == 0 then 0 else CountBelow(counts, k - 1) + counts[k - 1]
  }

  /** The byte values reported as low: 0 through 9. */
  const LowValues: nat := 10

  predicate IsLowValue(v: nat)
  {
    v < LowValues
  }

  /** Adding one value to the counter raises the count below k by one exactly when the
      value is below k. */
  lemma {:induction false} CountBelowAdd(counts: multiset<nat>, x: nat, k: nat)
    ensures CountBelow(counts + multiset{x}, k) == CountBelow(counts, k) + (if x < k then 1 else 0)
  {
    if k > 0 {
      CountBelowAdd(counts, x, k - 1);
    }
  }

  lemma {:induction false} CountBelowEmpty(k: nat)
    ensures CountBelow(multiset{}, k) == 0
  {
    if k > 0 {
      CountBelowEmpty(k - 1);
    }
  }

  /** The counter's low-value sum is the number of low bytes. */
  lemma {:induction false} LowCountIsFilter(xs: seq<nat>)
    ensures CountBelow(multiset(xs), LowValues) == CountWhere(xs, IsLowValue)
  {
    if xs == [] {
      CountBelowEmpty(LowValues);
    } else {
      var front := xs[..|xs| - 1];
      assert xs == front + [xs[|xs| - 1]];
      assert multiset(xs) == multiset(front) + multiset{xs[|xs| - 1]};
      LowCountIsFilter(front);
      CountBelowAdd(multiset(front), xs[|xs| - 1], LowValues);
    }
  }

  /** All 256 byte values. */
  function ByteRange(): (r: seq<nat>)
    ensures |r| == 256
  {
    seq(256, i requires 0 <= i < 256 => i)
  }

  /** There are at most 256 distinct byte values. */
  lemma UniqueBytesBound(data: seq<byte>)
    ensures |ToSet(Ints(data))| <= 256
  {
    var all := ByteRange();
    forall v | v in ToSet(Ints(data))
      ensures v in ToSet(all)
    {
      assert all[v] == v;
    }
    SubsetCard(ToSet(Ints(data)), ToSet(all));
    CardToSet(all);
  }

  /** `analyze_byte_distribution` without the entropy and the top-20 list. Python's
      `min` of empty data raises, which is None here. */
  function ByteDistribution(data: seq<byte>): (r: Option<ByteStats>)
    ensures r.None? <==> data == []
    ensures r.Some? ==> r.value.totalBytes == |data| && r.value.counts == multiset(Ints(data))
    ensures r.Some? ==> 1 <= r.value.uniqueValues <= 256
    ensures r.Some? ==> r.value.uniqueValues == |ToSet(Ints(data))|
    ensures r.Some? ==> r.value.minValue in Ints(data) && r.value.maxValue in Ints(data)
    ensures r.Some? ==> forall i :: 0 <= i < |data| ==> r.value.minValue <= U8(data[i]) <= r.value.maxValue
    ensures r.Some? ==> r.value.lowValueCount == |Filter(Ints(data), IsLowValue)|
  {
    if data == [] then None
    else
      var xs := Ints(data);
      UniqueBytesBound(data);
      assert xs[0] in ToSet(xs);
      LowCountIsFilter(xs);
      Some(ByteStats(|data|, |ToSet(xs)|, multiset(xs), MinOf(xs), MaxOf(xs), CountBelow(multiset(xs), LowValues)))
  }

  // ---------------------------------------------------------------- facet payload

  /** The high and low nibbles of a byte, as the shifts and masks compute them. */
  function HighNibble(b: byte): (n: nat)
    ensures n == U8(b) / 16
  {
    ((b >> 4) & 0x0F) as nat
  }

  function LowNibble(b: byte): (n: nat)
    ensures n == U8(b) % 16
  {
    (b & 0x0F) as nat
  }

  /** Each byte's high nibble then its low nibble. */
  function Nibbles(data: seq<byte>): (r: seq<nat>)
    ensures |r| == 2 * |data|
    ensures forall i :: 0 <= i < |r| ==> r[i] < 16
  {
    if data == [] then []
    else Nibbles(data[..|data| - 1]) + [HighNibble(data[|data| - 1]), LowNibble(data[|data| - 1])]
  }

  /** The two nibbles of byte i recombine into it. */
  lemma {:induction false} NibblesRecombine(data: seq<byte>, i: nat)
    requires i < |data|
    ensures 16 * Nibbles(data)[2 * i] + Nibbles(data)[2 * i + 1] == U8(data[i])
  {
    var front := data[..|data| - 1];
    if i < |data| - 1 {
      NibblesRecombine(front, i);
    }
  }

  lemma NibbleCountsSnoc(data: seq<byte>, i: nat)
    requires i < |data|
    ensures multiset(Nibbles(data[..i + 1])) ==
              multiset(Nibbles(data[..i])) + multiset{HighNibble(data[i])} + multiset{LowNibble(data[i])}
  {
    assert data[..i + 1][..i] == data[..i];
  }

  /** The nibble counter loop. */
  method NibbleHistogram(data: seq<byte>) returns (counts: multiset<nat>)
    ensures counts == multiset(Nibbles(data))
  {
    counts := multiset{};
    for i := 0 to |data|
      invariant counts == multiset(Nibbles(data[..i]))
    {
      NibbleCountsSnoc(data, i);
      var b := data[i];
      counts := counts + multiset{HighNibble(b)} + multiset{LowNibble(b)};
    }
    assert data[..|data|] == data;
  }

  /** The counter holds two nibbles per byte, each below 16. */
  lemma NibbleCounts(data: seq<byte>)
    ensures |multiset(Nibbles(data))| == 2 * |data|
    ensures forall n :: n in multiset(Nibbles(data)) ==> n < 16
  {
  }

  /** The integer parts of `analyze_edgebreaker_patterns`. */
  datatype EdgebreakerStats = EdgebreakerStats(
    facetCount: int,
    headerBytes: seq<nat>,
    markerPositions: seq<nat>,
    distances: Option<seq<nat>>,
    nibbles: multiset<nat>)

  /** Number of leading bytes shown as the facet header. */
  const HeaderLength: nat := 16

  method AnalyzeEdgebreakerPatterns(facetData: seq<byte>, facetCount: int) returns (r: EdgebreakerStats)
    ensures r.facetCount == facetCount
    ensures r.headerBytes == Ints(Take(facetData, HeaderLength))
    ensures |r.headerBytes| == Min(HeaderLength, |facetData|)
    ensures r.markerPositions == MarkerPositions(facetData)
    ensures |r.markerPositions| == |MarkerIndices(facetData)|
    ensures r.distances.Some? <==> |r.markerPositions| > 1
    ensures r.distances.Some? ==> r.distances.value == Gaps(r.markerPositions)
    ensures r.nibbles == multiset(Nibbles(facetData))
  {
    var header := Ints(Take(facetData, HeaderLength));
    var positions := MarkerPositions(facetData);
    MarkerPositionsCount(facetData);
    var distances := None;
    if |positions| > 1 {
      distances := Some(Gaps(positions));
    }
    var nibbles := NibbleHistogram(facetData);
    r := EdgebreakerStats(facetCount, header, positions, distances, nibbles);
  }

  /** Every listed distance is at least one, and together they span the first marker
      to the last. */
  lemma MarkerDistances(facetData: seq<byte>)
    requires |MarkerPositions(facetData)| > 1
    ensures var p := MarkerPositions(facetData);
            var g := Gaps(p);
            && |g| == |p| - 1
            && (forall i :: 0 <= i < |g| ==> g[i] >= 1)
            && Sum(g) == p[|p| - 1] - p[0]
  {
    GapsSum(MarkerPositions(facetData));
  }

  // ---------------------------------------------------------------- vertex payload

  /** Bytes looked at for repeated chunks: the chunks at offsets 0, 4, ..., 96. */
  const ChunkWindow: nat := 100
  const ChunkSize: nat := 4

  function Chunks(data: seq<byte>): (r: seq<seq<byte>>)
    requires |data| >= ChunkWindow
    ensures |r| == ChunkWindow / ChunkSize
    ensures forall i :: 0 <= i < |r| ==> r[i] == data[ChunkSize * i..ChunkSize * i + ChunkSize]
  {
    seq(ChunkWindow / ChunkSize, i requires 0 <= i < ChunkWindow / ChunkSize => data[ChunkSize * i..ChunkSize * i + ChunkSize])
  }

  /** The integer parts of `analyze_vertex_encoding` (float interpretations aside). */
  datatype VertexStats = VertexStats(totalBytes: nat, header32Hex: string, repeatedChunks: Option<nat>)

  function AnalyzeVertexEncoding(vertexData: seq<byte>): (r: VertexStats)
    ensures r.totalBytes == |vertexData|
    ensures r.header32Hex == Hex(Take(vertexData, 32))
    ensures FromHex(r.header32Hex) == Some(Take(vertexData, 32))
    ensures r.repeatedChunks.Some? <==> |vertexData| >= ChunkWindow
    ensures r.repeatedChunks.Some? ==>
              var c := Chunks(vertexData);
              r.repeatedChunks.value == |set h | h in c && multiset(c)[h] > 1|
  {
    HexRoundTrip(Take(vertexData, 32));
    var repeated: Option<nat> :=
      if |vertexData| >= ChunkWindow then
        DuplicatesCount(Chunks(vertexData));
        Some(|Duplicates(Chunks(vertexData))|)
      else None;
    VertexStats(|vertexData|, Hex(Take(vertexData, 32)), repeated)
  }

  /** No chunk is counted exactly when the 25 chunks are pairwise different, and each
      counted chunk occurs at least twice. */
  lemma RepeatedChunksMeaning(vertexData: seq<byte>)
    requires |vertexData| >= ChunkWindow
    ensures AnalyzeVertexEncoding(vertexData).repeatedChunks.value == 0 <==> NoDup(Chunks(vertexData))
    ensures forall d :: d in Duplicates(Chunks(vertexData)) ==> multiset(Chunks(vertexData))[d.0] >= 2
  {
    DuplicatesEmpty(Chunks(vertexData));
  }
}
