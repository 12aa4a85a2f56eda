/** The facet payload split on the marker byte 9. Two tools split it, one with a
    `current` accumulator and one by slicing between marker positions; both are
    proved equal to one reference definition. */
module Segmentation {
  import opened Wrappers
  import opened Bytes
  import opened Collections

  /** The delimiter the tools assume between facet segments. */
  const Marker: byte := 9

  /** End of the marker-free stretch that starts at `start`: the next marker, or the end. */
  function BlockEnd(data: seq<byte>, start: nat): (e: nat)
    requires start <= |data|
    ensures start <= e <= |data|
    ensures forall i :: start <= i < e ==> data[i] != Marker
    ensures e < |data| ==> data[e] == Marker
    decreases |data| - start
  {
    if start == |data| || data[start] == Marker then start else BlockEnd(data, start + 1)
  }

  /** The maximal marker-free blocks of `data[start:]`, in order; empty blocks (from
      leading, trailing or adjacent markers) do not appear. */
  function SegmentsFrom(data: seq<byte>, start: nat): seq<seq<byte>>
    requires start <= |data|
    decreases |data| - start
  {
    if start == |data| then []
    else if data[start] == Marker then SegmentsFrom(data, start + 1)
    else
      var e := BlockEnd(data, start);
      [data[start..e]] + SegmentsFrom(data, e)
  }

  /** No segment is empty or holds the marker. */
  lemma {:induction false} SegmentsWellFormed(data: seq<byte>, start: nat)
    requires start <= |data|
    ensures forall i :: 0 <= i < |SegmentsFrom(data, start)| ==>
              SegmentsFrom(data, start)[i] != [] && Marker !in SegmentsFrom(data, start)[i]
    decreases |data| - start
  {
    if start < |data| {
      if data[start] == Marker {
        SegmentsWellFormed(data, start + 1);
      } else {
        var e := BlockEnd(data, start);
        SegmentsWellFormed(data, e);
        assert forall i :: start <= i < e ==> data[i] == data[start..e][i - start];
      }
    }
  }

  /** The segments of a whole payload. */
  function Segments(data: seq<byte>): seq<seq<byte>>
  {
    SegmentsFrom(data, 0)
  }

  /** The block end is the first marker at or after `start`. */
  lemma {:induction false} BlockEndAt(data: seq<byte>, start: nat, e: nat)
    requires start <= e <= |data|
    requires forall i :: start <= i < e ==> data[i] != Marker
    requires e == |data| || data[e] == Marker
    ensures BlockEnd(data, start) == e
    decreases e - start
  {
    if start < e {
      BlockEndAt(data, start + 1, e);
    }
  }

  /** A marker-free stretch from `start` up to the marker (or end) at `e` is one
      segment, unless it is empty. */
  lemma SegmentsUpTo(data: seq<byte>, start: nat, e: nat)
    requires start <= e <= |data|
    requires forall i :: start <= i < e ==> data[i] != Marker
    requires e == |data| || data[e] == Marker
    ensures SegmentsFrom(data, start) ==
              (if e > start then [data[start..e]] else []) + (if e < |data| then SegmentsFrom(data, e + 1) else [])
  {
    if e > start {
      BlockEndAt(data, start, e);
    }
  }

  /** The payload with every marker byte removed. */
  function StripMarkers(s: seq<byte>): (r: seq<byte>)
    ensures |r| <= |s|
    ensures Marker !in r
  {
    if s == [] then []
    else (if s[0] == Marker then [] else [s[0]]) + StripMarkers(s[1..])
  }

  lemma {:induction false} StripAppend(a: seq<byte>, b: seq<byte>)
    ensures StripMarkers(a + b) == StripMarkers(a) + StripMarkers(b)
  {
    if a != [] {
      assert (a + b)[1..] == a[1..] + b;
      StripAppend(a[1..], b);
    } else {
      assert a + b == b;
    }
  }

  lemma {:induction false} StripMarkerFree(a: seq<byte>)
    requires Marker !in a
    ensures StripMarkers(a) == a
  {
    if a != [] {
      StripMarkerFree(a[1..]);
    }
  }

  /** The segments hold exactly the non-marker bytes of the payload, in order. */
  lemma {:induction false} SegmentsFromConcat(data: seq<byte>, start: nat)
    requires start <= |data|
    ensures Concat(SegmentsFrom(data, start)) == StripMarkers(data[start..])
    decreases |data| - start
  {
    if start < |data| {
      var rest := data[start..];
      if data[start] == Marker {
        SegmentsFromConcat(data, start + 1);
        assert rest[1..] == data[start + 1..];
      } else {
        var e := BlockEnd(data, start);
        var block := data[start..e];
        SegmentsFromConcat(data, e);
        ConcatAppend([block], SegmentsFrom(data, e));
        assert Concat([block]) == block by {
          assert [block][..0] == [];
        }
        assert rest == block + data[e..];
        StripAppend(block, data[e..]);
        StripMarkerFree(block);
      }
    }
  }

  lemma SegmentsConcat(data: seq<byte>)
    ensures Concat(Segments(data)) == StripMarkers(data)
  {
    SegmentsFromConcat(data, 0);
    assert data[0..] == data;
  }

  /** Rejoining segments with the marker between them (`bytes([9]).join(...)`). */
  function Join(segments: seq<seq<byte>>): seq<byte>
  {
    if segments == [] then []
    else if |segments| == 1 then segments[0]
    else segments[0] + [Marker] + Join(segments[1..])
  }

  /** Splitting is not undone by rejoining: adjacent markers collapse. */
  lemma JoinDoesNotRestore()
    ensures Join(Segments([1, 9, 9, 2])) == [1, 9, 2]
  {
    var s: seq<byte> := [1, 9, 9, 2];
    SegmentsUpTo(s, 0, 1);
    assert SegmentsFrom(s, 2) == SegmentsFrom(s, 3);
    SegmentsUpTo(s, 3, 4);
    assert s[0..1] == [1] && s[3..4] == [2];
    assert Segments(s) == [[1], [2]];
  }

  /** The segments found so far followed by those of the rest from `start` are all the
      segments. */
  ghost predicate SplitSoFar(data: seq<byte>, segments: seq<seq<byte>>, start: nat)
    requires start <= |data|
  {
    segments + SegmentsFrom(data, start) == Segments(data)
  }

  /** The accumulator loop: bytes go into `current`; a marker closes a non-empty
      `current` as a segment; a non-empty `current` is closed at the end. */
  method SplitOnMarker(data: seq<byte>) returns (segments: seq<seq<byte>>)
    ensures segments == Segments(data)
  {
    segments := [];
    var current: seq<byte> := [];
    var i := 0;
    ghost var cs := 0;
    while i < |data|
      invariant cs <= i <= |data|
      invariant current == data[cs..i] && Marker !in current
      invariant SplitSoFar(data, segments, cs)
    {
      if data[i] == Marker {
        CloseSegment(data, cs, i, segments);
        if current != [] {
          segments := segments + [current];
        }
        current := [];
        cs := i + 1;
      } else {
        GrowSegment(data, cs, i);
        current := current + [data[i]];
      }
      i := i + 1;
    }
    CloseSegment(data, cs, i, segments);
    if current != [] {
      segments := segments + [current];
    }
  }

  /** A byte that is no marker extends the marker-free stretch before it. */
  lemma GrowSegment(data: seq<byte>, start: nat, i: nat)
    requires start <= i < |data| && Marker !in data[start..i] && data[i] != Marker
    ensures data[start..i] + [data[i]] == data[start..i + 1] && Marker !in data[start..i + 1]
  {
    assert data[start..i] + [data[i]] == data[start..i + 1];
  }

  /** One step of the split: the marker-free stretch `data[start..e]` joins the
      segments found so far, unless it is empty. */
  lemma CloseSegment(data: seq<byte>, start: nat, e: nat, segments: seq<seq<byte>>)
    requires start <= e <= |data|
    requires Marker !in data[start..e]
    requires e == |data| || data[e] == Marker
    requires SplitSoFar(data, segments, start)
    ensures e < |data| ==> SplitSoFar(data, if e > start then segments + [data[start..e]] else segments, e + 1)
    ensures e == |data| ==> (if e > start then segments + [data[start..e]] else segments) == Segments(data)
  {
    assert forall i :: start <= i < e ==> data[i] == data[start..e][i - start];
    SegmentsUpTo(data, start, e);
  }

  /** Positions of the marker byte, in increasing order (`[i for i, b in enumerate(data) if b == 9]`). */
  function MarkerPositions(s: seq<byte>): (r: seq<nat>)
    ensures forall m :: 0 <= m < |r| ==> r[m] < |s| && s[r[m]] == Marker
    ensures forall m, n :: 0 <= m < n < |r| ==> r[m] < r[n]
  {
    if s == [] then []
    else
      var front := MarkerPositions(s[..|s| - 1]);
      if s[|s| - 1] == Marker then front + [|s| - 1] else front
  }

  /** Every marker is listed. */
  lemma {:induction false} MarkerPositionsComplete(s: seq<byte>, i: nat)
    requires i < |s| && s[i] == Marker
    ensures i in MarkerPositions(s)
  {
    if i < |s| - 1 {
      MarkerPositionsComplete(s[..|s| - 1], i);
    }
  }

  /** The indices holding the marker. */
  function MarkerIndices(s: seq<byte>): set<nat>
  {
    set i: nat | i < |s| && s[i] == Marker
  }

  /** There is one position per marker byte. */
  lemma MarkerPositionsCount(s: seq<byte>)
    ensures |MarkerPositions(s)| == |MarkerIndices(s)|
  {
    var r := MarkerPositions(s);
    assert NoDup(r);
    CardToSetNoDup(r);
    forall i | i in MarkerIndices(s)
      ensures i in ToSet(r)
    {
      MarkerPositionsComplete(s, i);
    }
    assert ToSet(r) == MarkerIndices(s);
  }

  /** Where the slicing loop's j-th segment starts: just past marker j - 1. */
  function SegmentStart(positions: seq<nat>, j: nat): nat
    requires j <= |positions|
  {
    if j == 0 then 0 else positions[j - 1] + 1
  }

  /** No marker lies between marker j - 1 and marker j (or the end). */
  lemma NoMarkerBefore(data: seq<byte>, j: nat, i: nat)
    requires j <= |MarkerPositions(data)|
    requires SegmentStart(MarkerPositions(data), j) <= i < |data|
    requires j < |MarkerPositions(data)| ==> i < MarkerPositions(data)[j]
    ensures data[i] != Marker
  {
    var positions := MarkerPositions(data);
    forall m | 0 <= m < |positions|
      ensures positions[m] != i
    {
      if m < j {
        assert positions[m] <= positions[j - 1];
      } else {
        assert positions[j] <= positions[m];
      }
    }
    if data[i] == Marker {
      MarkerPositionsComplete(data, i);
    }
  }

  /** The stretch before marker j (or before the end, once j is past the last marker) is marker-free. */
  lemma GapFree(data: seq<byte>, j: nat)
    requires j <= |MarkerPositions(data)|
    ensures SegmentStart(MarkerPositions(data), j) <= |data|
    ensures j < |MarkerPositions(data)| ==> SegmentStart(MarkerPositions(data), j) <= MarkerPositions(data)[j]
    ensures var e := if j < |MarkerPositions(data)| then MarkerPositions(data)[j] else |data|;
      forall i :: SegmentStart(MarkerPositions(data), j) <= i < e ==> data[i] != Marker
  {
    var positions := MarkerPositions(data);
    var e := if j < |positions| then positions[j] else |data|;
    forall i | SegmentStart(positions, j) <= i < e
      ensures data[i] != Marker
    {
      NoMarkerBefore(data, j, i);
    }
  }

  /** The slicing loop over marker positions: `data[start:pos]` when non-empty,
      then the tail after the last marker. */
  method SplitAtMarkerPositions(data: seq<byte>) returns (segments: seq<seq<byte>>)
    ensures segments == Segments(data)
  {
    var positions := MarkerPositions(data);
    segments := [];
    var start: nat := 0;
    var j := 0;
    while j < |positions|
      invariant 0 <= j <= |positions|
      invariant start == SegmentStart(positions, j) <= |data|
      invariant SplitSoFar(data, segments, start)
    {
      var pos := positions[j];
      MarkerStep(data, j, start, pos, segments);
      segments := if pos > start then segments + [data[start..pos]] else segments;
      start := pos + 1;
      j := j + 1;
    }
    MarkerTail(data, segments);
    if start < |data| {
      segments := segments + [data[start..]];
    }
  }

  /** Marker j closes the segment that starts after marker j - 1. */
  lemma MarkerStep(data: seq<byte>, j: nat, start: nat, pos: nat, segments: seq<seq<byte>>)
    requires j < |MarkerPositions(data)|
    requires start == SegmentStart(MarkerPositions(data), j) && pos == MarkerPositions(data)[j]
    requires start <= |data| && SplitSoFar(data, segments, start)
    ensures start <= pos < |data|
    ensures SplitSoFar(data, if pos > start then segments + [data[start..pos]] else segments, pos + 1)
  {
    GapFree(data, j);
    SliceStep(data, start, pos, segments);
  }

  /** After the last marker, the rest of the payload is the last segment, if any. */
  lemma MarkerTail(data: seq<byte>, segments: seq<seq<byte>>)
    requires SegmentStart(MarkerPositions(data), |MarkerPositions(data)|) <= |data|
    requires SplitSoFar(data, segments, SegmentStart(MarkerPositions(data), |MarkerPositions(data)|))
    ensures var start := SegmentStart(MarkerPositions(data), |MarkerPositions(data)|);
            (if start < |data| then segments + [data[start..]] else segments) == Segments(data)
  {
    GapFree(data, |MarkerPositions(data)|);
    SliceTail(data, SegmentStart(MarkerPositions(data), |MarkerPositions(data)|), segments);
  }

  /** One step of the slicing loop: the bytes from `start` up to the marker at `pos`
      are the next segment, if any, and the rest is split from `pos + 1`. */
  lemma SliceStep(data: seq<byte>, start: nat, pos: nat, segments: seq<seq<byte>>)
    requires start <= pos < |data| && data[pos] == Marker
    requires forall i :: start <= i < pos ==> data[i] != Marker
    requires segments + SegmentsFrom(data, start) == Segments(data)
    ensures (if pos > start then segments + [data[start..pos]] else segments) + SegmentsFrom(data, pos + 1) == Segments(data)
  {
    SegmentsUpTo(data, start, pos);
    var next := SegmentsFrom(data, pos + 1);
    if pos > start {
      var piece := [data[start..pos]];
      assert segments + (piece + next) == (segments + piece) + next;
    } else {
      assert [] + next == next;
    }
  }

  /** The last step of the slicing loop: what follows the last marker is one segment, if any. */
  lemma SliceTail(data: seq<byte>, start: nat, segments: seq<seq<byte>>)
    requires start <= |data|
    requires forall i :: start <= i < |data| ==> data[i] != Marker
    requires segments + SegmentsFrom(data, start) == Segments(data)
    ensures (if start < |data| then segments + [data[start..]] else segments) == Segments(data)
  {
    SegmentsUpTo(data, start, |data|);
    assert data[start..|data|] == data[start..];
    if start == |data| {
      assert segments + [] == segments;
    }
  }

  /** Distances between consecutive markers (`positions[i+1] - positions[i]`). */
  function Gaps(p: seq<nat>): (g: seq<nat>)
    requires forall m, n :: 0 <= m < n < |p| ==> p[m] < p[n]
    ensures |g| == if p == [] then 0 else |p| - 1
    ensures forall i :: 0 <= i < |g| ==> g[i] >= 1 && p[i] + g[i] == p[i + 1]
  {
    if |p| <= 1 then [] else seq(|p| - 1, i requires 0 <= i < |p| - 1 => p[i + 1] - p[i])
  }

  function Sum(xs: seq<nat>): nat
  {
    if xs == [] then 0 else Sum(xs[..|xs| - 1]) + xs[|xs| - 1]
  }

  /** The gaps add up to the span from the first marker to the last. */
  lemma {:induction false} GapsSum(p: seq<nat>)
    requires p != []
    requires forall m, n :: 0 <= m < n < |p| ==> p[m] < p[n]
    ensures Sum(Gaps(p)) == p[|p| - 1] - p[0]
  {
    if |p| > 1 {
      var front := p[..|p| - 1];
      GapsSum(front);
      var g := Gaps(p);
      assert Gaps(front) == g[..|g| - 1];
    }
  }

  /** `min(xs)` of a non-empty list. */
  function MinOf(xs: seq<nat>): (m: nat)
    requires xs != []
    ensures m in xs
    ensures forall i :: 0 <= i < |xs| ==> m <= xs[i]
  {
    if |xs| == 1 then xs[0] else Min(MinOf(xs[..|xs| - 1]), xs[|xs| - 1])
  }

  /** `max(xs)` of a non-empty list. */
  function MaxOf(xs: seq<nat>): (m: nat)
    requires xs != []
    ensures m in xs
    ensures forall i :: 0 <= i < |xs| ==> xs[i] <= m
  {
    if |xs| == 1 then xs[0] else Max(MaxOf(xs[..|xs| - 1]), xs[|xs| - 1])
  }

  /** The gap statistics, computed only when there are at least two markers. */
  datatype GapStats = GapStats(count: nat, minGap: nat, maxGap: nat, sumGaps: nat)

  function MarkerGapStats(data: seq<byte>): (r: Option<GapStats>)
    ensures r.Some? <==> |MarkerPositions(data)| > 1
    ensures r.Some? ==> 1 <= r.value.minGap <= r.value.maxGap
    ensures r.Some? ==>
              var g := Gaps(MarkerPositions(data));
              r.value.minGap in g && r.value.maxGap in g &&
              forall i :: 0 <= i < |g| ==> r.value.minGap <= g[i] <= r.value.maxGap
    ensures r.Some? ==> r.value.count == |MarkerIndices(data)|
    ensures r.Some? ==>
              r.value.sumGaps == MarkerPositions(data)[|MarkerPositions(data)| - 1] - MarkerPositions(data)[0]
  {
    var p := MarkerPositions(data);
    if |p| > 1 then
      var g := Gaps(p);
      MarkerPositionsCount(data);
      GapsSum(p);
      var lo, hi := MinOf(g), MaxOf(g);
      assert 1 <= g[0] && lo <= g[0] <= hi;
      Some(GapStats(|p|, lo, hi, Sum(g)))
    else None
  }
}
