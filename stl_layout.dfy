/** The STL container as the tools read it: the ASCII/binary sniff, and the binary triangle
    walk (80-byte header, little-endian u32 triangle count, then 50-byte records of a normal,
    three corners and a 2-byte attribute) that builds a first-occurrence vertex list. */
module StlLayout {
  import opened Wrappers
  import opened Bytes
  import opened Collections
  import opened Canon

  /** The 12 bytes of three little-endian float32 values (a normal or a corner). */
  type Record = seq<byte>

  const HeaderLength: nat := 80
  const CountEnd: nat := 84
  const TriangleLength: nat := 50
  const RecordLength: nat := 12

  /** The ASCII bytes of "solid" and "facet". */
  const Solid: seq<byte> := [0x73, 0x6F, 0x6C, 0x69, 0x64]
  const Facet: seq<byte> := [0x66, 0x61, 0x63, 0x65, 0x74]

  /** The sniff of the loaders: the first five bytes read "solid" in any case and
      "facet" occurs within the first 1000 bytes. */
  predicate LooksAscii(data: seq<byte>)
  {
    LowerBytes(Slice(data, 0, 5)) == Solid && Contains(Slice(data, 0, 1000), Facet)
  }

  /** A file taken for ASCII starts with a case variant of "solid", and its "facet"
      cannot overlap that word, so it holds at least ten bytes. */
  lemma AsciiShape(data: seq<byte>)
    requires LooksAscii(data)
    ensures |data| >= 10
    ensures forall i :: 0 <= i < 5 ==> LowerByte(data[i]) == Solid[i]
  {
    var head := Slice(data, 0, 1000);
    var i :| 0 <= i <= |head| - |Facet| && OccursAt(head, Facet, i);
    assert |Slice(data, 0, 5)| == 5;
    assert forall k :: 0 <= k < 5 ==> LowerBytes(Slice(data, 0, 5))[k] == LowerByte(data[k]);
    assert forall k :: 0 <= k < 5 ==> data[k] != Facet[0];
    assert forall k :: 0 <= k < 5 && k < |head| ==> head[k] != Facet[0] by {
      assert forall k :: 0 <= k < |head| ==> head[k] == data[k];
    }
    assert head[i] == Facet[0];
  }

  /** Only the first 1000 bytes decide the sniff. */
  lemma AsciiLocal(data: seq<byte>, rest: seq<byte>)
    requires |data| >= 1000
    ensures LooksAscii(data + rest) == LooksAscii(data)
  {
    assert Slice(data + rest, 0, 1000) == Slice(data, 0, 1000);
    assert Slice(data + rest, 0, 5) == Slice(data, 0, 5);
  }

  /** `struct.unpack('<I', data[80:84])`; the caller has checked the four bytes exist. */
  function TriangleCount(data: seq<byte>): (n: nat)
    requires |data| >= CountEnd
    ensures n < 0x1_0000_0000
  {
    LeU32(data[HeaderLength..CountEnd])
  }

  /** Where the walk reads corner j of triangle t: past the header, t records and the normal. */
  function CornerOffset(t: nat, j: nat): nat
  {
    CountEnd + TriangleLength * t + RecordLength + RecordLength * j
  }

  /** Every unpack of a walk over n triangles finds its 12 bytes. The attribute bytes of a
      record are skipped, never read, so the last record may lack them. */
  predicate Readable(data: seq<byte>, n: nat)
  {
    n == 0 || CountEnd + TriangleLength * n - 2 <= |data|
  }

  /** The whole walk succeeds: the count is present and every triangle it announces is. */
  predicate WalkFits(data: seq<byte>)
  {
    |data| >= CountEnd && Readable(data, TriangleCount(data))
  }

  function Corner(data: seq<byte>, t: nat, j: nat): (r: Record)
    requires CornerOffset(t, j) + RecordLength <= |data|
    ensures |r| == RecordLength
  {
    data[CornerOffset(t, j)..CornerOffset(t, j) + RecordLength]
  }

  function Normal(data: seq<byte>, t: nat): (r: Record)
    requires CountEnd + TriangleLength * t + RecordLength <= |data|
    ensures |r| == RecordLength
  {
    data[CountEnd + TriangleLength * t..CountEnd + TriangleLength * t + RecordLength]
  }

  /** The corner records of the first n triangles. */
  function Corners(data: seq<byte>, n: nat): (r: seq<(Record, Record, Record)>)
    requires Readable(data, n)
    ensures |r| == n
    ensures forall t :: 0 <= t < n ==> r[t] == (Corner(data, t, 0), Corner(data, t, 1), Corner(data, t, 2))
  {
    seq(n, t requires 0 <= t < n => (Corner(data, t, 0), Corner(data, t, 1), Corner(data, t, 2)))
  }

  /** The normal records of the first n triangles. */
  function Normals(data: seq<byte>, n: nat): (r: seq<Record>)
    requires Readable(data, n)
    ensures |r| == n
    ensures forall t :: 0 <= t < n ==> r[t] == Normal(data, t)
  {
    seq(n, t requires 0 <= t < n => Normal(data, t))
  }

  lemma CornersSnoc(data: seq<byte>, t: nat)
    requires Readable(data, t + 1)
    ensures Readable(data, t)
    ensures Corners(data, t + 1) == Corners(data, t) + [(Corner(data, t, 0), Corner(data, t, 1), Corner(data, t, 2))]
    ensures Normals(data, t + 1) == Normals(data, t) + [Normal(data, t)]
  {
  }

  /** The records the walk slices out of triangle t, at its offset, are its normal and
      its three corners. */
  lemma TriangleAt(data: seq<byte>, t: nat, offset: nat)
    requires offset == CountEnd + TriangleLength * t && offset + 4 * RecordLength <= |data|
    ensures Readable(data, t + 1)
    ensures data[offset..offset + RecordLength] == Normal(data, t)
    ensures data[offset + 12..offset + 24] == Corner(data, t, 0)
    ensures data[offset + 24..offset + 36] == Corner(data, t, 1)
    ensures data[offset + 36..offset + 48] == Corner(data, t, 2)
  {
    assert CornerOffset(t, 0) == offset + 12;
    assert CornerOffset(t, 1) == offset + 24;
    assert CornerOffset(t, 2) == offset + 36;
  }

  /** One more triangle appends its three corners to the walk's corner list. */
  lemma WalkStep(data: seq<byte>, t: nat, seen: seq<Record>)
    requires Readable(data, t + 1) && seen == Flatten(Corners(data, t))
    ensures seen + [Corner(data, t, 0), Corner(data, t, 1), Corner(data, t, 2)] == Flatten(Corners(data, t + 1))
  {
    CornersSnoc(data, t);
    FlattenSnoc(Corners(data, t), (Corner(data, t, 0), Corner(data, t, 1), Corner(data, t, 2)));
  }

  /** The walk's corner list in file order, three per triangle. */
  function CornerList(data: seq<byte>): (r: seq<Record>)
    requires WalkFits(data)
    ensures |r| == 3 * TriangleCount(data)
  {
    Flatten(Corners(data, TriangleCount(data)))
  }

  /** The loaders' mesh: the normal of every triangle, the distinct vertices in order of
      first appearance, and each triangle as three positions in that list. */
  datatype StlMesh = StlMesh(normals: seq<Record>, vertices: seq<Record>, faces: seq<(nat, nat, nat)>)

  /** `struct.error`: an unpack found fewer than `needed` bytes. */
  datatype UnpackError = UnpackError(needed: nat)

  /** What a successful walk yields under the given vertex identity. */
  ghost predicate WalkResult<K(!new)>(data: seq<byte>, key: Record -> K, m: StlMesh)
    requires WalkFits(data)
  {
    m.normals == Normals(data, TriangleCount(data)) &&
    m.vertices == Firsts(CornerList(data), key) &&
    IndexedBy(m.faces, CornerList(data), key)
  }

  /** The binary loaders' loop. Two corners are one vertex when `key` maps them to the same
      value (the rounded coordinate triple, or the coordinate triple itself). */
  method ReadBinary<K(==,!new)>(data: seq<byte>, key: Record -> K) returns (r: Result<StlMesh, UnpackError>)
    ensures r.Ok? <==> WalkFits(data)
    ensures r.Ok? ==> WalkResult(data, key, r.value)
    ensures r.Err? ==> r.error == UnpackError(if |data| < CountEnd then 4 else RecordLength)
  {
    if |data| < CountEnd {
      return Err(UnpackError(4));
    }
    var n := LeU32(data[HeaderLength..CountEnd]);
    var offset: nat := CountEnd;
    var normals: seq<Record> := [];
    var vertices: seq<Record> := [];
    var vertexMap: map<K, nat> := map[];
    var faces: seq<(nat, nat, nat)> := [];
    ghost var seen: seq<Record> := [];
    ghost var idx: seq<nat> := [];
    for t := 0 to n
      invariant offset == CountEnd + TriangleLength * t
      invariant Readable(data, t)
      invariant seen == Flatten(Corners(data, t)) && normals == Normals(data, t)
      invariant vertices == Firsts(seen, key) && MapOk(vertexMap, vertices, key)
      invariant idx == Indices(seen, key) && FacesMatch(faces, idx)
    {
      if offset + 4 * RecordLength > |data| {
        return Err(UnpackError(RecordLength));
      }
      TriangleAt(data, t, offset);
      CornersSnoc(data, t);
      var normal := data[offset..offset + RecordLength];
      offset := offset + RecordLength;
      var triple := [data[offset..offset + 12], data[offset + 12..offset + 24], data[offset + 24..offset + 36]];
      offset := offset + 3 * RecordLength;
      var faceIndices;
      faceIndices, vertices, vertexMap := AddFace(triple, key, vertices, vertexMap, seen);
      offset := offset + 2;
      WalkStep(data, t, seen);
      FacesMatchSnoc(faces, idx, faceIndices);
      normals := normals + [normal];
      faces := faces + [(faceIndices[0], faceIndices[1], faceIndices[2])];
      idx := idx + faceIndices;
      seen := seen + triple;
    }
    IndicesFaces(seen, key, faces);
    r := Ok(StlMesh(normals, vertices, faces));
  }

  /** A successful walk has one face and one normal per announced triangle, at most three
      vertices per triangle, and exactly one vertex per distinct corner key. */
  lemma WalkCounts<K(!new)>(data: seq<byte>, key: Record -> K, m: StlMesh)
    requires WalkFits(data) && WalkResult(data, key, m)
    ensures |m.faces| == |m.normals| == TriangleCount(data)
    ensures |m.vertices| <= 3 * TriangleCount(data)
    ensures |m.vertices| == |ToSet(Keys(CornerList(data), key))|
  {
    FirstsCount(CornerList(data), key);
  }

  /** Every corner of every triangle can be looked up in the vertex list. */
  lemma WalkResolves<K(!new)>(data: seq<byte>, key: Record -> K, m: StlMesh, t: nat)
    requires WalkFits(data) && WalkResult(data, key, m) && t < |m.faces|
    ensures m.faces[t].0 < |m.vertices| && key(m.vertices[m.faces[t].0]) == key(Corner(data, t, 0))
    ensures m.faces[t].1 < |m.vertices| && key(m.vertices[m.faces[t].1]) == key(Corner(data, t, 1))
    ensures m.faces[t].2 < |m.vertices| && key(m.vertices[m.faces[t].2]) == key(Corner(data, t, 2))
  {
    var xs := CornerList(data);
    IndexedFacesResolve(m.faces, xs, key, t);
    FlattenAt(Corners(data, TriangleCount(data)), t);
  }

  /** The `result += struct.pack('<fff', x, y, z)` loop over the kept vertices. */
  method PackVertices(vertices: seq<Record>) returns (out: seq<byte>)
    requires forall i :: 0 <= i < |vertices| ==> |vertices[i]| == RecordLength
    ensures out == Concat(vertices)
    ensures |out| == RecordLength * |vertices|
  {
    out := [];
    for i := 0 to |vertices|
      invariant out == Concat(vertices[..i])
    {
      assert vertices[..i + 1][..i] == vertices[..i];
      out := out + vertices[i];
    }
    assert vertices[..|vertices|] == vertices;
    ConcatUniformLength(vertices, RecordLength);
  }

  /** The data cut into consecutive 12-byte records; a shorter tail is dropped
      (`range(len(data) // 12)`). */
  function Records(s: seq<byte>): (r: seq<Record>)
    ensures |r| == |s| / RecordLength
    ensures forall i :: 0 <= i < |r| ==> r[i] == s[RecordLength * i..RecordLength * i + RecordLength]
  {
    seq(|s| / RecordLength, i requires 0 <= i < |s| / RecordLength =>
      s[RecordLength * i..RecordLength * i + RecordLength])
  }

  /** Joining the records again gives the data without its tail of fewer than 12 bytes. */
  lemma ConcatRecords(s: seq<byte>)
    ensures Concat(Records(s)) == s[..RecordLength * (|s| / RecordLength)]
  {
    var rs := Records(s);
    var c := Concat(rs);
    ConcatUniformLength(rs, RecordLength);
    forall k | 0 <= k < |c|
      ensures c[k] == s[k]
    {
      var i := k / RecordLength;
      ConcatUniformAt(rs, RecordLength, i);
      assert c[k] == c[RecordLength * i..RecordLength * i + RecordLength][k - RecordLength * i];
    }
  }

  /** A list of records is what cutting up its own concatenation gives. */
  lemma RecordsOfConcat(rs: seq<Record>)
    requires forall i :: 0 <= i < |rs| ==> |rs[i]| == RecordLength
    ensures Records(Concat(rs)) == rs
  {
    ConcatUniformLength(rs, RecordLength);
    forall i | 0 <= i < |rs|
      ensures Records(Concat(rs))[i] == rs[i]
    {
      ConcatUniformAt(rs, RecordLength, i);
    }
  }
}
