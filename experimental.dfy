/** The experimental decoder's byte statistics: run analysis, the facet structure
    report (header words, marker gaps, sliced segments), the byte parts of the XOR
    trials and the int16 vertex scheme guard. */
module Experimental {
  import opened Wrappers
  import opened Bytes
  import opened Collections
  import opened RunLength
  import opened Segmentation

  /** The integer parts of `analyze_runs`: run count, longest run length and the ten
      longest runs (the average is floating point and left out). */
  datatype RunStats = RunStats(numRuns: nat, maxRunLength: nat, longestRuns: seq<Run>)

  /** How many runs `longest_runs` keeps. */
  const LongestKept: nat := 10

  function RunLengths(runs: seq<Run>): (r: seq<nat>)
    ensures |r| == |runs| && forall i :: 0 <= i < |r| ==> r[i] == runs[i].length
  {
    seq(|runs|, i requires 0 <= i < |runs| => runs[i].length)
  }

  /** What `analyze_runs` reports about non-empty data. */
  function RunStatsOf(data: seq<byte>): RunStats
    requires data != []
  {
    var runs := Runs(data);
    RunStats(|runs|, MaxOf(RunLengths(runs)), Take(SortByLength(runs), LongestKept))
  }

  /** The accumulator loop of `analyze_runs`: `current_val`/`current_run` hold the open run. */
  method CollectRuns(data: seq<byte>) returns (runs: seq<Run>)
    requires data != []
    ensures runs == Runs(data)
  {
    runs := [];
    var currentVal := data[0];
    var currentRun: nat := 1;
    assert Runs(data[..1]) == [Run(currentVal, 1)] by {
      assert data[..1][..0] == [];
    }
    var i := 1;
    while i < |data|
      invariant 1 <= i <= |data|
      invariant Runs(data[..i]) == runs + [Run(currentVal, currentRun)]
    {
      RunsOfSnoc(data, i, runs, Run(currentVal, currentRun));
      if data[i] == currentVal {
        currentRun := currentRun + 1;
      } else {
        runs := runs + [Run(currentVal, currentRun)];
        currentVal := data[i];
        currentRun := 1;
      }
      i := i + 1;
    }
    assert data[..i] == data;
    runs := runs + [Run(currentVal, currentRun)];
  }

  /** `analyze_runs`; `data[0]` fails on empty data, so the caller must pass some. */
  method AnalyzeRuns(data: seq<byte>) returns (stats: RunStats)
    requires data != []
    ensures stats == RunStatsOf(data)
  {
    var runs := CollectRuns(data);
    var lengths := RunLengths(runs);
    stats := RunStats(|runs|, MaxOf(lengths), Take(SortByLength(runs), LongestKept));
  }

  /** The run report describes the data: the runs are maximal and rebuild it, their
      lengths add up to its length, and the maximum is the length of one of them with no
      run longer. */
  lemma RunStatsCounts(data: seq<byte>)
    requires data != []
    ensures Maximal(Runs(data)) && Expand(Runs(data)) == data
    ensures RunStatsOf(data).numRuns == |Runs(data)| >= 1
    ensures TotalLength(Runs(data)) == |data|
    ensures exists i :: 0 <= i < |Runs(data)| && Runs(data)[i].length == RunStatsOf(data).maxRunLength
    ensures forall i :: 0 <= i < |Runs(data)| ==> Runs(data)[i].length <= RunStatsOf(data).maxRunLength
  {
    var runs := Runs(data);
    RunsMaximal(data);
    RunsTotal(data);
    LongestRunLength(runs);
  }

  /** The longest run length is the length of one run, and no run is longer. */
  lemma LongestRunLength(runs: seq<Run>)
    requires runs != []
    ensures exists i :: 0 <= i < |runs| && runs[i].length == MaxOf(RunLengths(runs))
    ensures forall i :: 0 <= i < |runs| ==> runs[i].length <= MaxOf(RunLengths(runs))
  {
    var lengths := RunLengths(runs);
    var m := MaxOf(lengths);
    var i :| 0 <= i < |lengths| && lengths[i] == m;
    assert runs[i].length == m;
  }

  /** The kept runs are ten of the runs (all of them when there are fewer), sorted by
      descending length, none shorter than a run left out. */
  lemma RunStatsLongest(data: seq<byte>)
    requires data != []
    ensures var kept := RunStatsOf(data).longestRuns;
            |kept| == Min(LongestKept, |Runs(data)|) &&
            multiset(kept) <= multiset(Runs(data)) &&
            SortedByLength(kept) &&
            (forall i, j :: 0 <= i < |kept| <= j < |SortByLength(Runs(data))| ==>
               kept[i].length >= SortByLength(Runs(data))[j].length)
  {
    var runs := Runs(data);
    TopRunsAreLongest(runs, LongestKept);
    TopRunsSorted(runs, LongestKept);
    SortByLengthSize(runs);
  }

  /** The sort behind `longest_runs` is stable: runs of one length keep their order of
      appearance. */
  lemma RunStatsStable(data: seq<byte>, L: nat)
    requires data != []
    ensures RunStatsOf(data).longestRuns == Take(SortByLength(Runs(data)), LongestKept)
    ensures OfLength(SortByLength(Runs(data)), L) == OfLength(Runs(data), L)
  {
    SortByLengthStable(Runs(data), L);
  }

  /** The first word read both ways, and whether either reading is the facet count. */
  datatype HeaderProbe = HeaderProbe(le: nat, be: nat, matchesFacetCount: bool)

  /** The integer parts of `analyze_facet_structure` (averages and ratios are floating
      point and left out). */
  datatype FacetStructure = FacetStructure(
    probe: Option<HeaderProbe>,
    gaps: Option<GapStats>,
    numSegments: Option<nat>,
    firstSegments: Option<seq<seq<byte>>>,
    valueRuns: RunStats)

  /** The first five segments, each cut to its first 20 bytes. */
  function FirstSegments(segments: seq<seq<byte>>): (r: seq<seq<byte>>)
    ensures |r| == Min(5, |segments|)
    ensures forall i :: 0 <= i < |r| ==> r[i] == Take(segments[i], 20)
  {
    var first := Take(segments, 5);
    seq(|first|, i requires 0 <= i < |first| => Take(first[i], 20))
  }

  /** The header probe on data of at least four bytes. */
  function Probe(data: seq<byte>, facetCount: int): (r: Option<HeaderProbe>)
    ensures r.Some? <==> |data| >= 4
    ensures r.Some? ==> r.value.le < 0x1_0000_0000 && r.value.be < 0x1_0000_0000
    ensures r.Some? ==> (r.value.matchesFacetCount <==> r.value.le == facetCount || r.value.be == facetCount)
  {
    if |data| >= 4 then
      var le := LeU32(data[..4]);
      var be := BeU32(data[..4]);
      Some(HeaderProbe(le, be, le == facetCount || be == facetCount))
    else None
  }

  /** The probe reads the first four bytes as little- and big-endian words. */
  lemma ProbeReadsFirstWord(data: seq<byte>, facetCount: int)
    requires |data| >= 4
    ensures Probe(data, facetCount).value.le ==
              U8(data[0]) + 0x100 * (U8(data[1]) + 0x100 * (U8(data[2]) + 0x100 * U8(data[3])))
    ensures Probe(data, facetCount).value.be ==
              U8(data[3]) + 0x100 * (U8(data[2]) + 0x100 * (U8(data[1]) + 0x100 * U8(data[0])))
  {
  }

  /** Why the analysis raises: the marker count is divided by a facet count of zero
      (`gaps_vs_facets`), or `analyze_runs` reads `data[0]` of empty data. */
  datatype AnalysisError = ZeroFacetCount | EmptyData

  /** `analyze_facet_structure`. */
  method AnalyzeFacetStructure(data: seq<byte>, facetCount: int) returns (r: Result<FacetStructure, AnalysisError>)
    ensures r.Err? <==> data == [] || (facetCount == 0 && |MarkerPositions(data)| > 1)
    ensures r == Err(ZeroFacetCount) <==> facetCount == 0 && |MarkerPositions(data)| > 1
    ensures r.Ok? ==> r.value.probe == Probe(data, facetCount)
    ensures r.Ok? ==> r.value.gaps == MarkerGapStats(data)
    ensures r.Ok? ==> (r.value.numSegments.Some? <==> Segments(data) != [])
    ensures r.Ok? && r.value.numSegments.Some? ==>
              r.value.numSegments.value == |Segments(data)| &&
              r.value.firstSegments == Some(FirstSegments(Segments(data)))
    ensures r.Ok? ==> r.value.valueRuns == RunStatsOf(data)
  {
    var probe := Probe(data, facetCount);
    var gaps := MarkerGapStats(data);
    if gaps.Some? && facetCount == 0 {
      return Err(ZeroFacetCount);
    }
    var segments := SplitAtMarkerPositions(data);
    var numSegments: Option<nat> := None;
    var firstSegments: Option<seq<seq<byte>>> := None;
    if segments != [] {
      numSegments := Some(|segments|);
      firstSegments := Some(FirstSegments(segments));
    }
    if data == [] {
      return Err(EmptyData);
    }
    var runs := AnalyzeRuns(data);
    return Ok(FacetStructure(probe, gaps, numSegments, firstSegments, runs));
  }

  /** The self-XOR at shift k: the data without its last k bytes against the data
      without its first k; a zero shift pairs nothing. */
  function SelfXor(data: seq<byte>, k: nat): (r: seq<byte>)
  {
    var lo: nat := if k <= |data| then k else |data|;
    ZipXor(PyPrefix(data, -(k as int)), data[lo..])
  }

  /** For a positive shift the self-XOR pairs every byte with the one k places later. */
  lemma SelfXorPairs(data: seq<byte>, k: nat)
    requires 1 <= k <= |data|
    ensures |SelfXor(data, k)| == |data| - k
    ensures forall i :: 0 <= i < |data| - k ==> SelfXor(data, k)[i] == data[i] ^ data[i + k]
  {
  }

  /** The key sizes `try_xor_decrypt` tries. */
  const KeySizes: seq<nat> := [1, 2, 4, 8, 16]

  /** The self-XOR trials that run: only shifts with `len(data) > 2k`, in the order of
      the key sizes. As the key sizes increase, these are the first of them. */
  function SelfXorTrials(data: seq<byte>): (r: seq<(nat, seq<byte>)>)
    ensures |r| <= |KeySizes|
    ensures forall j :: 0 <= j < |KeySizes| ==> (j < |r| <==> |data| > 2 * KeySizes[j])
    ensures forall j :: 0 <= j < |r| ==>
              r[j].0 == KeySizes[j] && |data| > 2 * r[j].0 && r[j].1 == SelfXor(data, r[j].0)
  {
    var n := if |data| > 32 then 5 else if |data| > 16 then 4 else if |data| > 8 then 3
             else if |data| > 4 then 2 else if |data| > 2 then 1 else 0;
    seq(n, j requires 0 <= j < n => (KeySizes[j], SelfXor(data, KeySizes[j])))
  }

  /** Decryption with a repeating key: byte i is combined with key byte i mod the key length. */
  function XorWithKey(data: seq<byte>, key: seq<byte>): (r: seq<byte>)
    requires key != []
    ensures |r| == |data|
    ensures forall i :: 0 <= i < |data| ==> r[i] == data[i] ^ key[i % |key|]
  {
    seq(|data|, i requires 0 <= i < |data| => data[i] ^ key[i % |key|])
  }

  /** The single-byte keys tried: no encryption, all bits, and the two alternating patterns. */
  const CommonKeys: seq<seq<byte>> := [[0x00], [0xFF], [0xAA], [0x55]]

  /** The zero key is "no encryption". */
  lemma ZeroKeyIsIdentity(data: seq<byte>)
    ensures XorWithKey(data, CommonKeys[0]) == data
  {
    var r := XorWithKey(data, CommonKeys[0]);
    forall i | 0 <= i < |data|
      ensures r[i] == data[i]
    {
      assert i % 1 == 0;
    }
  }

  /** Decrypting twice with the same key gives the data back. */
  lemma XorWithKeyTwice(data: seq<byte>, key: seq<byte>)
    requires key != []
    ensures XorWithKey(XorWithKey(data, key), key) == data
  {
    var once := XorWithKey(data, key);
    var twice := XorWithKey(once, key);
    forall i | 0 <= i < |data|
      ensures twice[i] == data[i]
    {
      var k := key[i % |key|];
      assert twice[i] == (data[i] ^ k) ^ k;
    }
  }

  /** The int16 reading of a vertex candidate: a count, whether it is the expected one,
      and up to ten triples. */
  datatype Int16Scheme = Int16Scheme(vertexCount: nat, matchesExpected: bool, sample: seq<(int, int, int)>)

  /** Three little-endian signed 16-bit words starting at `offset`. */
  function Int16Triple(d: seq<byte>, offset: nat): (r: (int, int, int))
    requires offset + 6 <= |d|
  {
    (LeI16(d[offset], d[offset + 1]), LeI16(d[offset + 2], d[offset + 3]), LeI16(d[offset + 4], d[offset + 5]))
  }

  /** The int16 branch of `try_vertex_decodings`: taken only when the length is a multiple
      of six, and then sampling the first `min(10, n)` triples. */
  method TryInt16Scheme(vertexData: seq<byte>, expected: int) returns (r: Option<Int16Scheme>)
    ensures r.Some? <==> |vertexData| % 6 == 0
    ensures r.Some? ==>
              r.value.vertexCount == |vertexData| / 6 &&
              (r.value.matchesExpected <==> |vertexData| / 6 == expected) &&
              |r.value.sample| == Min(10, |vertexData| / 6) &&
              forall i :: 0 <= i < |r.value.sample| ==>
                6 * i + 6 <= |vertexData| && r.value.sample[i] == Int16Triple(vertexData, 6 * i)
  {
    if |vertexData| % 6 != 0 {
      return None;
    }
    var n := |vertexData| / 6;
    assert 6 * n == |vertexData|;
    var sample: seq<(int, int, int)> := [];
    for i := 0 to Min(10, n)
      invariant |sample| == i
      invariant forall j :: 0 <= j < i ==> 6 * j + 6 <= |vertexData| && sample[j] == Int16Triple(vertexData, 6 * j)
    {
      MulMono(6, i + 1, n);
      sample := sample + [Int16Triple(vertexData, 6 * i)];
    }
    return Some(Int16Scheme(n, n == expected, sample));
  }
}
