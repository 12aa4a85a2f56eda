/** The facet decoder's loaders and statistics: face indices from an STL file, the
    marker-9 segments of the facet payloads, digram and trigram counts, and the
    header probes. */
module FacetDecoder {
  import opened Wrappers
  import opened Bytes
  import opened Collections
  import opened Canon
  import opened Segmentation
  import opened StlLayout

  /** One training sample: the declared counts, the decoded payload and the STL faces. */
  datatype FacetSample = FacetSample(facetCount: int, vertexCount: int, facetData: seq<byte>, faces: seq<(nat, nat, nat)>)

  /** Faces as indices into the distinct vertices, and the number of distinct vertices. */
  type Faces = (seq<(nat, nat, nat)>, nat)

  /** Every face entry is a position in a vertex list of length `count`. */
  predicate InRange(faces: seq<(nat, nat, nat)>, count: nat)
  {
    forall t :: 0 <= t < |faces| ==> faces[t].0 < count && faces[t].1 < count && faces[t].2 < count
  }

  /** `load_stl_faces_binary`: one face per announced triangle, indexed by first occurrence
      of the corner key. */
  method LoadFacesBinary<K(==,!new)>(data: seq<byte>, key: Record -> K) returns (r: Result<Faces, UnpackError>)
    ensures r.Ok? <==> WalkFits(data)
    ensures r.Ok? ==>
              |r.value.0| == TriangleCount(data) &&
              r.value.1 == |ToSet(Keys(CornerList(data), key))| &&
              IndexedBy(r.value.0, CornerList(data), key) &&
              InRange(r.value.0, r.value.1)
  {
    var mesh := ReadBinary(data, key);
    if mesh.Err? {
      return Err(mesh.error);
    }
    var m := mesh.value;
    WalkCounts(data, key, m);
    forall t | 0 <= t < |m.faces|
      ensures m.faces[t].0 < |m.vertices| && m.faces[t].1 < |m.vertices| && m.faces[t].2 < |m.vertices|
    {
      WalkResolves(data, key, m, t);
    }
    return Ok((m.faces, |m.vertices|));
  }

  /** `load_stl_faces_ascii` on the vertex triples its pattern matched: the same
      first-occurrence indexing, one face per match. */
  method LoadFacesAscii<T, K(==,!new)>(matches: seq<(T, T, T)>, key: T -> K) returns (r: Faces)
    ensures |r.0| == |matches|
    ensures r.1 == |ToSet(Keys(Flatten(matches), key))|
    ensures IndexedBy(r.0, Flatten(matches), key)
    ensures InRange(r.0, r.1)
  {
    var faces, vertices := IndexTriples(matches, key);
    FirstsCount(Flatten(matches), key);
    forall t | 0 <= t < |faces|
      ensures faces[t].0 < |vertices| && faces[t].1 < |vertices| && faces[t].2 < |vertices|
    {
      IndexedFacesResolve(faces, Flatten(matches), key, t);
    }
    r := (faces, |vertices|);
  }

  /** `load_stl_faces`: the ASCII loader when the sniff says ASCII, the binary one otherwise.
      `matches` are the vertex triples the ASCII pattern finds in `data`. */
  method LoadStlFaces<T, K(==,!new)>(data: seq<byte>, matches: seq<(T, T, T)>, asciiKey: T -> K, binaryKey: Record -> K)
    returns (r: Result<Faces, UnpackError>)
    ensures LooksAscii(data) ==> r.Ok? && |r.value.0| == |matches| && IndexedBy(r.value.0, Flatten(matches), asciiKey)
    ensures LooksAscii(data) ==> r.value.1 == |ToSet(Keys(Flatten(matches), asciiKey))|
    ensures !LooksAscii(data) ==> (r.Ok? <==> WalkFits(data))
    ensures !LooksAscii(data) && r.Ok? ==>
              |r.value.0| == TriangleCount(data) && IndexedBy(r.value.0, CornerList(data), binaryKey)
    ensures !LooksAscii(data) && r.Ok? ==> r.value.1 == |ToSet(Keys(CornerList(data), binaryKey))|
    ensures r.Ok? ==> InRange(r.value.0, r.value.1)
  {
    if LooksAscii(data) {
      var faces := LoadFacesAscii(matches, asciiKey);
      return Ok(faces);
    }
    r := LoadFacesBinary(data, binaryKey);
  }

  /** The segments of the samples' payloads, sample after sample. */
  function AllSegments(samples: seq<FacetSample>): seq<seq<byte>>
  {
    if samples == [] then []
    else AllSegments(samples[..|samples| - 1]) + Segments(samples[|samples| - 1].facetData)
  }

  /** No collected segment is empty or holds the marker. */
  lemma {:induction false} AllSegmentsWellFormed(samples: seq<FacetSample>)
    ensures forall i :: 0 <= i < |AllSegments(samples)| ==>
              AllSegments(samples)[i] != [] && Marker !in AllSegments(samples)[i]
  {
    if samples != [] {
      AllSegmentsWellFormed(samples[..|samples| - 1]);
      SegmentsWellFormed(samples[|samples| - 1].facetData, 0);
    }
  }

  /** The per-sample line of the segment report: segment count and face count. */
  datatype SampleSegments = SampleSegments(numSegments: nat, numFaces: nat)

  /** The integer parts of `analyze_segment_patterns`. Counters are multisets;
      `most_common` selection is not modelled. */
  datatype SegmentReport = SegmentReport(
    perSample: seq<SampleSegments>,
    uniqueSegments: nat,
    segmentCounts: multiset<seq<byte>>,
    minLength: nat,
    maxLength: nat,
    firstBytes: multiset<nat>)

  /** The lengths of a list of segments. */
  function Lengths(segments: seq<seq<byte>>): (r: seq<nat>)
    ensures |r| == |segments| && forall i :: 0 <= i < |r| ==> r[i] == |segments[i]|
  {
    seq(|segments|, i requires 0 <= i < |segments| => |segments[i]|)
  }

  /** The first byte of every non-empty segment, as the integer Python yields. */
  function FirstBytes(segments: seq<seq<byte>>): (r: seq<nat>)
    ensures |r| <= |segments|
    ensures (forall i :: 0 <= i < |segments| ==> segments[i] != []) ==>
              |r| == |segments| && forall i :: 0 <= i < |r| ==> r[i] == U8(segments[i][0])
  {
    if segments == [] then []
    else
      var last := segments[|segments| - 1];
      FirstBytes(segments[..|segments| - 1]) + (if last != [] then [U8(last[0])] else [])
  }

  /** The sample loop of `analyze_segment_patterns`: split each payload with the accumulator
      loop and collect the segments and the per-sample counts. */
  method CollectSegments(samples: seq<FacetSample>) returns (all: seq<seq<byte>>, perSample: seq<SampleSegments>)
    ensures all == AllSegments(samples)
    ensures |perSample| == |samples|
    ensures forall i :: 0 <= i < |samples| ==>
              perSample[i] == SampleSegments(|Segments(samples[i].facetData)|, |samples[i].faces|)
  {
    all, perSample := [], [];
    for s := 0 to |samples|
      invariant all == AllSegments(samples[..s])
      invariant |perSample| == s
      invariant forall i :: 0 <= i < s ==>
                  perSample[i] == SampleSegments(|Segments(samples[i].facetData)|, |samples[i].faces|)
    {
      var segments := SplitOnMarker(samples[s].facetData);
      assert samples[..s + 1][..s] == samples[..s];
      all := all + segments;
      perSample := perSample + [SampleSegments(|segments|, |samples[s].faces|)];
    }
    assert samples[..|samples|] == samples;
  }

  /** `analyze_segment_patterns`: split every payload with the accumulator loop, then count. */
  method AnalyzeSegmentPatterns(samples: seq<FacetSample>) returns (r: SegmentReport)
    ensures |r.perSample| == |samples|
    ensures forall i :: 0 <= i < |samples| ==>
              r.perSample[i] == SampleSegments(|Segments(samples[i].facetData)|, |samples[i].faces|)
    ensures r.segmentCounts == multiset(AllSegments(samples))
    ensures r.uniqueSegments == |ToSet(AllSegments(samples))|
    ensures AllSegments(samples) == [] ==> r.minLength == 0 && r.maxLength == 0
    ensures AllSegments(samples) != [] ==>
              1 <= r.minLength <= r.maxLength &&
              (forall i :: 0 <= i < |AllSegments(samples)| ==>
                 r.minLength <= |AllSegments(samples)[i]| <= r.maxLength) &&
              r.minLength in Lengths(AllSegments(samples)) && r.maxLength in Lengths(AllSegments(samples))
    ensures |r.firstBytes| == |AllSegments(samples)|
    ensures r.firstBytes == multiset(FirstBytes(AllSegments(samples)))
    ensures forall b :: b in r.firstBytes ==> b != U8(Marker)
  {
    var all, perSample := CollectSegments(samples);
    AllSegmentsWellFormed(samples);
    var lengths := Lengths(all);
    var minLength, maxLength := 0, 0;
    if all != [] {
      minLength, maxLength := MinOf(lengths), MaxOf(lengths);
      assert lengths[0] >= 1;
    }
    var firsts := FirstBytes(all);
    forall b | b in multiset(firsts)
      ensures b != U8(Marker)
    {
      var i :| 0 <= i < |firsts| && firsts[i] == b;
      assert all[i][0] != Marker;
      U8Injective(all[i][0], Marker);
    }
    r := SegmentReport(perSample, |ToSet(all)|, multiset(all), minLength, maxLength, multiset(firsts));
  }

  /** Adjacent byte pairs of a payload; a payload shorter than two bytes has none. */
  function Digrams(d: seq<byte>): (r: seq<(nat, nat)>)
    ensures |d| <= 1 ==> r == []
    ensures |d| > 1 ==> |r| + 1 == |d|
    ensures forall i :: 0 <= i < |r| ==> r[i] == Digram(d, i)
  {
    if |d| <= 1 then [] else seq(|d| - 1, i requires 0 <= i < |d| - 1 => Digram(d, i))
  }

  /** The byte pair at position i. */
  function Digram(d: seq<byte>, i: nat): (nat, nat)
    requires i + 1 < |d|
  {
    (U8(d[i]), U8(d[i + 1]))
  }

  /** Adjacent byte triples of a payload. */
  function Trigrams(d: seq<byte>): (r: seq<(nat, nat, nat)>)
    ensures |d| <= 2 ==> r == []
    ensures |d| > 2 ==> |r| + 2 == |d|
    ensures forall i :: 0 <= i < |r| ==> r[i] == Trigram(d, i)
  {
    if |d| <= 2 then [] else seq(|d| - 2, i requires 0 <= i < |d| - 2 => Trigram(d, i))
  }

  /** The byte triple at position i. */
  function Trigram(d: seq<byte>, i: nat): (nat, nat, nat)
    requires i + 2 < |d|
  {
    (U8(d[i]), U8(d[i + 1]), U8(d[i + 2]))
  }

  function AllDigrams(samples: seq<FacetSample>): seq<(nat, nat)>
  {
    if samples == [] then [] else AllDigrams(samples[..|samples| - 1]) + Digrams(samples[|samples| - 1].facetData)
  }

  function AllTrigrams(samples: seq<FacetSample>): seq<(nat, nat, nat)>
  {
    if samples == [] then [] else AllTrigrams(samples[..|samples| - 1]) + Trigrams(samples[|samples| - 1].facetData)
  }

  /** The sum over the samples of `max(len - w, 0)`. */
  function WindowTotal(samples: seq<FacetSample>, w: nat): nat
  {
    if samples == [] then 0
    else
      var d := samples[|samples| - 1].facetData;
      WindowTotal(samples[..|samples| - 1], w) + (if |d| >= w then |d| - w else 0)
  }

  /** The collected digrams and trigrams number one per window position. */
  lemma {:induction false} GramTotals(samples: seq<FacetSample>)
    ensures |AllDigrams(samples)| == WindowTotal(samples, 1)
    ensures |AllTrigrams(samples)| == WindowTotal(samples, 2)
  {
    if samples != [] {
      GramTotals(samples[..|samples| - 1]);
    }
  }

  /** The digram and trigram `Counter` loops of `analyze_edgebreaker_hypothesis`. */
  method CountGrams(samples: seq<FacetSample>) returns (digrams: multiset<(nat, nat)>, trigrams: multiset<(nat, nat, nat)>)
    ensures digrams == multiset(AllDigrams(samples))
    ensures trigrams == multiset(AllTrigrams(samples))
    ensures |digrams| == WindowTotal(samples, 1) && |trigrams| == WindowTotal(samples, 2)
  {
    digrams, trigrams := multiset{}, multiset{};
    for s := 0 to |samples|
      invariant digrams == multiset(AllDigrams(samples[..s]))
      invariant trigrams == multiset(AllTrigrams(samples[..s]))
    {
      assert samples[..s + 1][..s] == samples[..s];
      var d := samples[s].facetData;
      digrams := CountDigrams(d, digrams);
      trigrams := CountTrigrams(d, trigrams);
    }
    assert samples[..|samples|] == samples;
    GramTotals(samples);
  }

  /** The digram counter loop of one payload: one count per adjacent pair. */
  method CountDigrams(d: seq<byte>, before: multiset<(nat, nat)>) returns (after: multiset<(nat, nat)>)
    ensures after == before + multiset(Digrams(d))
  {
    after := before;
    var grams := Digrams(d);
    for i := 0 to |grams|
      invariant after == before + multiset(grams[..i])
    {
      var g := (U8(d[i]), U8(d[i + 1]));
      assert g == grams[i];
      MultisetPrefixSnoc(grams, i);
      after := after + multiset{g};
    }
    assert grams[..|grams|] == grams;
  }

  /** The trigram counter loop of one payload: one count per adjacent triple. */
  method CountTrigrams(d: seq<byte>, before: multiset<(nat, nat, nat)>) returns (after: multiset<(nat, nat, nat)>)
    ensures after == before + multiset(Trigrams(d))
  {
    after := before;
    var grams := Trigrams(d);
    for i := 0 to |grams|
      invariant after == before + multiset(grams[..i])
    {
      var g := (U8(d[i]), U8(d[i + 1]), U8(d[i + 2]));
      assert g == grams[i];
      MultisetPrefixSnoc(grams, i);
      after := after + multiset{g};
    }
    assert grams[..|grams|] == grams;
  }

  /** How many offsets the header probe tries: `range(min(16, len(data) - 3))`. */
  function ProbeBound(data: seq<byte>): (n: nat)
    ensures n <= 16 && (n == 0 || n + 3 <= |data|)
  {
    if |data| <= 3 then 0 else Min(16, |data| - 3)
  }

  /** `struct.unpack('<I', data[j:j+4])`. */
  function WordAt(data: seq<byte>, j: nat): (v: nat)
    requires j + 4 <= |data|
    ensures v < 0x1_0000_0000
  {
    LeU32(data[j..j + 4])
  }

  /** The last offset below n whose LE uint32 equals `value`. */
  function LastOffset(data: seq<byte>, value: int, n: nat): (r: Option<nat>)
    requires n == 0 || n + 3 <= |data|
    ensures r.Some? ==>
              r.value < n && WordAt(data, r.value) == value &&
              forall j :: r.value < j < n ==> WordAt(data, j) != value
    ensures r.None? ==> forall j :: 0 <= j < n ==> WordAt(data, j) != value
  {
    if n == 0 then None
    else if WordAt(data, n - 1) == value then Some(n - 1)
    else LastOffset(data, value, n - 1)
  }

  /** One entry of `header_analysis`. */
  datatype HeaderInfo = HeaderInfo(
    facetCount: int,
    vertexCount: int,
    first16: seq<byte>,
    first16Hex: string,
    firstUint32: nat,
    firstInt32: int,
    secondUint32: nat,
    facetCountAtOffset: Option<nat>,
    vertexCountAtOffset: Option<nat>)

  /** The offset loop: a later match overwrites an earlier one. */
  method ProbeCounts(data: seq<byte>, facetCount: int, vertexCount: int) returns (facetAt: Option<nat>, vertexAt: Option<nat>)
    ensures facetAt == LastOffset(data, facetCount, ProbeBound(data))
    ensures vertexAt == LastOffset(data, vertexCount, ProbeBound(data))
  {
    facetAt, vertexAt := None, None;
    for i := 0 to ProbeBound(data)
      invariant facetAt == LastOffset(data, facetCount, i)
      invariant vertexAt == LastOffset(data, vertexCount, i)
    {
      var v := WordAt(data, i);
      if v == facetCount {
        facetAt := Some(i);
      }
      if v == vertexCount {
        vertexAt := Some(i);
      }
    }
  }

  /** The header entry of one sample of at least 16 bytes. */
  function Header(s: FacetSample): HeaderInfo
    requires IsLong(s)
  {
    var d := s.facetData;
    HeaderInfo(s.facetCount, s.vertexCount, d[..16], Hex(d[..16]), LeU32(d[..4]), LeI32(d[..4]), LeU32(d[4..8]),
               LastOffset(d, s.facetCount, ProbeBound(d)), LastOffset(d, s.vertexCount, ProbeBound(d)))
  }

  predicate IsLong(s: FacetSample)
  {
    |s.facetData| >= 16
  }

  /** The samples the header analysis keeps: those of at least 16 bytes. */
  function LongSamples(samples: seq<FacetSample>): (r: seq<FacetSample>)
    ensures forall i :: 0 <= i < |r| ==> IsLong(r[i])
  {
    var r := Filter(samples, IsLong);
    assert forall i :: 0 <= i < |r| ==> r[i] in r;
    r
  }

  /** The entries of samples that are all long enough. */
  function HeadersOf(long: seq<FacetSample>): (r: seq<HeaderInfo>)
    requires forall i :: 0 <= i < |long| ==> IsLong(long[i])
    ensures |r| == |long|
  {
    seq(|long|, i requires 0 <= i < |long| => Header(long[i]))
  }

  lemma HeadersOfSnoc(long: seq<FacetSample>, x: FacetSample)
    requires forall i :: 0 <= i < |long| ==> IsLong(long[i])
    requires IsLong(x)
    ensures forall i :: 0 <= i < |long + [x]| ==> IsLong((long + [x])[i])
    ensures HeadersOf(long + [x]) == HeadersOf(long) + [Header(x)]
  {
    assert forall i :: 0 <= i < |long + [x]| ==> IsLong((long + [x])[i]);
  }

  /** The bytes at `pos` of every header long enough to have one (`if len(fb) > pos`). */
  function ValuesAt(firsts: seq<seq<nat>>, pos: nat): (r: seq<nat>)
    ensures |r| <= |firsts|
    ensures (forall i :: 0 <= i < |firsts| ==> |firsts[i]| > pos) ==>
              |r| == |firsts| && forall i :: 0 <= i < |r| ==> r[i] == firsts[i][pos]
  {
    if firsts == [] then []
    else
      var last := firsts[|firsts| - 1];
      ValuesAt(firsts[..|firsts| - 1], pos) + (if |last| > pos then [last[pos]] else [])
  }

  /** Every value in the list is `v`, and there is at least one. */
  predicate AllEqual(values: seq<nat>, v: nat)
  {
    values != [] && forall i :: 0 <= i < |values| ==> values[i] == v
  }

  /** The value every sample holds at `pos`, when `len(set(values_at_pos)) == 1`. */
  function Constant(firsts: seq<seq<nat>>, pos: nat): (r: Option<nat>)
    ensures r.Some? ==> AllEqual(ValuesAt(firsts, pos), r.value)
    ensures r.None? ==> forall v :: !AllEqual(ValuesAt(firsts, pos), v)
  {
    var values := ValuesAt(firsts, pos);
    if values != [] && AllEqual(values, values[0]) then Some(values[0]) else None
  }

  /** The constant is there exactly when the values at `pos` form a one-element set. */
  lemma ConstantIsSingleton(firsts: seq<seq<nat>>, pos: nat)
    ensures var values := ValuesAt(firsts, pos);
            Constant(firsts, pos).Some? <==> |ToSet(values)| == 1
    ensures var values := ValuesAt(firsts, pos);
            Constant(firsts, pos).Some? ==> Constant(firsts, pos).value == values[0]
  {
    SingleValue(ValuesAt(firsts, pos));
  }

  /** The `(k, value)` pairs for the positions k below n where `at` has a value, in
      increasing order of k. */
  function Present(at: nat -> Option<nat>, n: nat): (r: seq<(nat, nat)>)
    ensures |r| <= n
  {
    if n == 0 then []
    else
      var c := at(n - 1);
      Present(at, n - 1) + (if c.Some? then [(n - 1, c.value)] else [])
  }

  lemma PresentStep(at: nat -> Option<nat>, n: nat)
    ensures Present(at, n + 1) == Present(at, n) + (if at(n).Some? then [(n, at(n).value)] else [])
  {
  }

  /** Every listed pair is a position below n with its value, and the positions increase. */
  lemma {:induction false} PresentSound(at: nat -> Option<nat>, n: nat)
    ensures var r := Present(at, n);
            forall j :: 0 <= j < |r| ==> r[j].0 < n && at(r[j].0) == Some(r[j].1)
    ensures var r := Present(at, n);
            forall j, k :: 0 <= j < k < |r| ==> r[j].0 < r[k].0
  {
    if n > 0 {
      PresentSound(at, n - 1);
      PresentStep(at, n - 1);
    }
  }

  lemma InPresentStep(at: nat -> Option<nat>, n: nat, p: nat, v: nat)
    requires n >= 1
    ensures (p, v) in Present(at, n) <==> (p, v) in Present(at, n - 1) || (p == n - 1 && at(p) == Some(v))
  {
    var c := at(n - 1);
    var tail: seq<(nat, nat)> := if c.Some? then [(n - 1, c.value)] else [];
    assert Present(at, n) == Present(at, n - 1) + tail;
    InAppend(Present(at, n - 1), tail, (p, v));
  }

  /** Every position below n with a value is listed with it. */
  lemma {:induction false} PresentComplete(at: nat -> Option<nat>, n: nat, p: nat, v: nat)
    requires p < n && at(p) == Some(v)
    ensures (p, v) in Present(at, n)
  {
    InPresentStep(at, n, p, v);
    if p < n - 1 {
      PresentComplete(at, n - 1, p, v);
    }
  }

  /** The `(pos, value)` pairs for the constant positions below n, in increasing order. */
  function ConstantsUpTo(firsts: seq<seq<nat>>, n: nat): (r: seq<(nat, nat)>)
    ensures |r| <= n
  {
    Present(ConstantAt(firsts), n)
  }

  /** `Constant` as a function of the position. */
  function ConstantAt(firsts: seq<seq<nat>>): nat -> Option<nat>
  {
    (k: nat) => Constant(firsts, k)
  }

  /** Every listed pair is a constant position below n with its value, and the
      positions increase. */
  lemma ConstantsSound(firsts: seq<seq<nat>>, n: nat)
    ensures var r := ConstantsUpTo(firsts, n);
            forall j :: 0 <= j < |r| ==> r[j].0 < n && Constant(firsts, r[j].0) == Some(r[j].1)
    ensures var r := ConstantsUpTo(firsts, n);
            forall j, k :: 0 <= j < k < |r| ==> r[j].0 < r[k].0
  {
    var r := ConstantsUpTo(firsts, n);
    assert r == Present(ConstantAt(firsts), n);
    PresentSound(ConstantAt(firsts), n);
    forall j | 0 <= j < |r|
      ensures r[j].0 < n && Constant(firsts, r[j].0) == Some(r[j].1)
    {
      assert ConstantAt(firsts)(r[j].0) == Constant(firsts, r[j].0);
    }
  }

  /** One more position: its constant, if there is one, joins the list. */
  lemma ConstantsUpToStep(firsts: seq<seq<nat>>, n: nat)
    ensures ConstantsUpTo(firsts, n + 1) ==
              ConstantsUpTo(firsts, n) + (if Constant(firsts, n).Some? then [(n, Constant(firsts, n).value)] else [])
  {
    PresentStep(ConstantAt(firsts), n);
  }

  /** Every constant position below n is listed, with its value. */
  lemma ConstantsComplete(firsts: seq<seq<nat>>, n: nat, p: nat, v: nat)
    requires p < n && Constant(firsts, p) == Some(v)
    ensures (p, v) in ConstantsUpTo(firsts, n)
  {
    PresentComplete(ConstantAt(firsts), n, p, v);
  }

  /** The `for pos in range(16)` loop collecting constant header positions. */
  method ConstantPositions(firsts: seq<seq<nat>>) returns (r: seq<(nat, nat)>)
    ensures r == ConstantsUpTo(firsts, 16)
  {
    r := [];
    for pos := 0 to 16
      invariant r == ConstantsUpTo(firsts, pos)
    {
      var values := ValuesAt(firsts, pos);
      ConstantsUpToStep(firsts, pos);
      ConstantIsSingleton(firsts, pos);
      if |ToSet(values)| == 1 {
        r := r + [(pos, values[0])];
      }
    }
  }

  /** The entry for one sample: its first 16 bytes, the integer readings of its first
      words, and the offset probes. */
  method HeaderFor(s: FacetSample) returns (h: HeaderInfo)
    requires IsLong(s)
    ensures h == Header(s)
  {
    var d := s.facetData;
    var facetAt, vertexAt := ProbeCounts(d, s.facetCount, s.vertexCount);
    h := HeaderInfo(s.facetCount, s.vertexCount, d[..16], Hex(d[..16]),
                    LeU32(d[..4]), LeI32(d[..4]), LeU32(d[4..8]), facetAt, vertexAt);
  }

  /** The sample loop of `analyze_header_structure`: short samples are skipped. */
  method CollectHeaders(samples: seq<FacetSample>) returns (headers: seq<HeaderInfo>)
    ensures headers == HeadersFrom(samples)
  {
    headers := [];
    for s := 0 to |samples|
      invariant headers == HeadersFrom(samples[..s])
    {
      assert samples[..s + 1][..s] == samples[..s];
      if IsLong(samples[s]) {
        var h := HeaderFor(samples[s]);
        headers := headers + [h];
      }
    }
    assert samples[..|samples|] == samples;
  }

  /** The entries the loop collects, sample by sample. */
  function HeadersFrom(samples: seq<FacetSample>): seq<HeaderInfo>
  {
    if samples == [] then []
    else
      var last := samples[|samples| - 1];
      HeadersFrom(samples[..|samples| - 1]) + (if IsLong(last) then [Header(last)] else [])
  }

  /** The loop's entries are those of the long samples, in order. */
  lemma {:induction false} HeadersFromLong(samples: seq<FacetSample>)
    ensures HeadersFrom(samples) == HeadersOf(LongSamples(samples))
  {
    if samples != [] {
      var n := |samples| - 1;
      HeadersFromLong(samples[..n]);
      assert samples[..n + 1] == samples;
      FilterPrefixSnoc(samples, n, IsLong);
      if IsLong(samples[n]) {
        HeadersOfSnoc(LongSamples(samples[..n]), samples[n]);
      }
    }
  }

  /** `analyze_header_structure`: one entry per sample of at least 16 bytes, and the constant
      positions when there is at least one entry. */
  method AnalyzeHeaderStructure(samples: seq<FacetSample>) returns (headers: seq<HeaderInfo>, constant: Option<seq<(nat, nat)>>)
    ensures |headers| == |LongSamples(samples)|
    ensures forall i :: 0 <= i < |headers| ==> headers[i] == Header(LongSamples(samples)[i])
    ensures constant.Some? <==> headers != []
    ensures constant.Some? ==>
              constant.value == ConstantsUpTo(seq(|headers|, i requires 0 <= i < |headers| => Ints(headers[i].first16)), 16)
  {
    headers := CollectHeaders(samples);
    HeadersFromLong(samples);
    constant := None;
    if headers != [] {
      var firsts := seq(|headers|, i requires 0 <= i < |headers| => Ints(headers[i].first16));
      var positions := ConstantPositions(firsts);
      constant := Some(positions);
    }
  }

  /** `try_decode_facets`: it splits the payload as above, reports the segment count,
      and decodes nothing. */
  method TryDecodeFacets(facetData: seq<byte>, facetCount: int, vertexCount: int)
    returns (r: Option<seq<(nat, nat, nat)>>, segmentCount: nat)
    ensures r == None
    ensures segmentCount == |Segments(facetData)|
  {
    var segments := SplitOnMarker(facetData);
    segmentCount := |segments|;
    r := None;
  }
}
