/** The STL side of the SDX test harness: load a mesh with first-occurrence vertex
    indexing, and export its vertex and face tables as raw little-endian records. */
module SdxHarness {
  import opened Wrappers
  import opened Bytes
  import opened Collections
  import opened Canon
  import opened StlLayout

  /** A parsed mesh; vertices are opaque records and identity is given by a key. */
  datatype Mesh = Mesh(normals: seq<Record>, vertices: seq<Record>, faces: seq<(nat, nat, nat)>, isBinary: bool, name: seq<byte>)

  // ---------------------------------------------------------------- the binary name

  /** `decode('ascii', errors='ignore')` drops every byte above 0x7F. */
  predicate IsAsciiByte(b: byte)
  {
    b < 0x80
  }

  function DropLeadingNul(s: seq<byte>): (r: seq<byte>)
    ensures |r| <= |s| && r == s[|s| - |r|..]
    ensures forall k :: 0 <= k < |s| - |r| ==> s[k] == 0
    ensures r == [] || r[0] != 0
  {
    if s != [] && s[0] == 0 then DropLeadingNul(s[1..]) else s
  }

  function DropTrailingNul(s: seq<byte>): (r: seq<byte>)
    ensures |r| <= |s| && r == s[..|r|]
    ensures forall k :: |r| <= k < |s| ==> s[k] == 0
    ensures r == [] || r[|r| - 1] != 0
  {
    if s != [] && s[|s| - 1] == 0 then DropTrailingNul(s[..|s| - 1]) else s
  }

  /** How many NULs lead the input. */
  function LeadingNuls(s: seq<byte>): nat
  {
    |s| - |DropLeadingNul(s)|
  }

  /** `str.strip('\x00')`: the input with its leading and trailing NULs removed. */
  function StripNul(s: seq<byte>): (r: seq<byte>)
    ensures r == [] || (r[0] != 0 && r[|r| - 1] != 0)
    ensures LeadingNuls(s) + |r| <= |s| && r == s[LeadingNuls(s)..LeadingNuls(s) + |r|]
    ensures forall k :: 0 <= k < LeadingNuls(s) ==> s[k] == 0
    ensures forall k :: LeadingNuls(s) + |r| <= k < |s| ==> s[k] == 0
  {
    DropTrailingNul(DropLeadingNul(s))
  }

  /** Stripping twice strips nothing more. */
  lemma StripNulIdempotent(s: seq<byte>)
    ensures StripNul(StripNul(s)) == StripNul(s)
  {
    var r := StripNul(s);
    if r != [] {
      assert DropLeadingNul(r) == r;
      assert DropTrailingNul(r) == r;
    }
  }

  /** The binary mesh's name: the 80-byte header as ASCII text, NULs stripped. */
  function BinaryName(data: seq<byte>): (name: seq<byte>)
    ensures forall k :: 0 <= k < |name| ==> IsAsciiByte(name[k])
    ensures |name| <= HeaderLength
  {
    var text := Filter(Slice(data, 0, HeaderLength), IsAsciiByte);
    var name := StripNul(text);
    assert forall k :: 0 <= k < |name| ==> name[k] in text;
    name
  }

  // ---------------------------------------------------------------- loading

  /** `parse_stl_binary`: the triangle walk of the binary layout. */
  method ParseStlBinary<K(==,!new)>(data: seq<byte>, key: Record -> K) returns (r: Result<Mesh, UnpackError>)
    ensures r.Ok? <==> WalkFits(data)
    ensures r.Ok? ==> r.value.isBinary && r.value.name == BinaryName(data)
    ensures r.Ok? ==> WalkResult(data, key, StlMesh(r.value.normals, r.value.vertices, r.value.faces))
    ensures r.Ok? ==> |r.value.faces| == TriangleCount(data)
    ensures r.Ok? ==> forall t :: 0 <= t < |r.value.faces| ==>
              r.value.faces[t].0 < |r.value.vertices| && r.value.faces[t].1 < |r.value.vertices| &&
              r.value.faces[t].2 < |r.value.vertices|
  {
    var walk := ReadBinary(data, key);
    if walk.Err? {
      return Err(walk.error);
    }
    var m := walk.value;
    WalkCounts(data, key, m);
    forall t | 0 <= t < |m.faces|
      ensures m.faces[t].0 < |m.vertices| && m.faces[t].1 < |m.vertices| && m.faces[t].2 < |m.vertices|
    {
      WalkResolves(data, key, m, t);
    }
    r := Ok(Mesh(m.normals, m.vertices, m.faces, true, BinaryName(data)));
  }

  /** One facet matched by the ASCII pattern: its normal and three vertices. */
  datatype AsciiFacet = AsciiFacet(normal: Record, corners: (Record, Record, Record))

  function FacetCorners(facets: seq<AsciiFacet>): (r: seq<(Record, Record, Record)>)
    ensures |r| == |facets|
    ensures forall t :: 0 <= t < |facets| ==> r[t] == facets[t].corners
  {
    seq(|facets|, t requires 0 <= t < |facets| => facets[t].corners)
  }

  /** `parse_stl_ascii` after tokenising: `name` is the word after "solid". */
  method ParseStlAscii<K(==,!new)>(name: seq<byte>, facets: seq<AsciiFacet>, key: Record -> K) returns (m: Mesh)
    ensures !m.isBinary && m.name == name
    ensures |m.faces| == |m.normals| == |facets|
    ensures forall t :: 0 <= t < |facets| ==> m.normals[t] == facets[t].normal
    ensures m.vertices == Firsts(Flatten(FacetCorners(facets)), key)
    ensures IndexedBy(m.faces, Flatten(FacetCorners(facets)), key)
  {
    var faces, vertices := IndexTriples(FacetCorners(facets), key);
    var normals := seq(|facets|, t requires 0 <= t < |facets| => facets[t].normal);
    m := Mesh(normals, vertices, faces, false, name);
  }

  /** `load_stl`: ASCII when the sniff says so, binary otherwise. */
  method LoadStl<K(==,!new)>(data: seq<byte>, asciiName: seq<byte>, facets: seq<AsciiFacet>, key: Record -> K)
    returns (r: Result<Mesh, UnpackError>)
    ensures LooksAscii(data) ==> r.Ok? && !r.value.isBinary && |r.value.faces| == |facets|
    ensures LooksAscii(data) ==>
              r.value.name == asciiName &&
              |r.value.normals| == |facets| &&
              (forall t :: 0 <= t < |facets| ==> r.value.normals[t] == facets[t].normal) &&
              r.value.vertices == Firsts(Flatten(FacetCorners(facets)), key) &&
              IndexedBy(r.value.faces, Flatten(FacetCorners(facets)), key)
    ensures !LooksAscii(data) ==> (r.Ok? <==> WalkFits(data))
    ensures !LooksAscii(data) && r.Ok? ==> r.value.isBinary && |r.value.faces| == TriangleCount(data)
    ensures !LooksAscii(data) && r.Ok? ==>
              r.value.name == BinaryName(data) &&
              WalkResult(data, key, StlMesh(r.value.normals, r.value.vertices, r.value.faces))
  {
    if LooksAscii(data) {
      var m := ParseStlAscii(asciiName, facets, key);
      return Ok(m);
    }
    r := ParseStlBinary(data, key);
  }

  // ---------------------------------------------------------------- exports

  /** `export_vertex_data`: each vertex record in turn. Vertex records are 12 bytes,
      as the loaders produce them. */
  method ExportVertexData(vertices: seq<Record>) returns (out: seq<byte>)
    requires forall i :: 0 <= i < |vertices| ==> |vertices[i]| == RecordLength
    ensures out == Concat(vertices)
    ensures |out| == RecordLength * |vertices|
  {
    out := PackVertices(vertices);
  }

  /** An index fits the `I` format of `struct.pack`. */
  const U32Limit: nat := 0x1_0000_0000

  predicate PackableFace(f: (nat, nat, nat))
  {
    f.0 < U32Limit && f.1 < U32Limit && f.2 < U32Limit
  }

  /** `struct.pack('<III', v1, v2, v3)`. */
  function PackFace(f: (nat, nat, nat)): (r: seq<byte>)
    requires PackableFace(f)
    ensures |r| == 3 * 4
  {
    PackU32Le(f.0) + PackU32Le(f.1) + PackU32Le(f.2)
  }

  /** The packed record of every face. */
  function PackedFaces(faces: seq<(nat, nat, nat)>): (r: seq<seq<byte>>)
    requires forall t :: 0 <= t < |faces| ==> PackableFace(faces[t])
    ensures |r| == |faces|
    ensures forall t :: 0 <= t < |faces| ==> r[t] == PackFace(faces[t]) && |r[t]| == 12
  {
    seq(|faces|, t requires 0 <= t < |faces| => PackFace(faces[t]))
  }

  /** The face table as written: the packed faces one after another. */
  function FaceBytes(faces: seq<(nat, nat, nat)>): (r: seq<byte>)
    requires forall t :: 0 <= t < |faces| ==> PackableFace(faces[t])
  {
    Concat(PackedFaces(faces))
  }

  lemma FaceBytesLength(faces: seq<(nat, nat, nat)>)
    requires forall t :: 0 <= t < |faces| ==> PackableFace(faces[t])
    ensures |FaceBytes(faces)| == 12 * |faces|
    ensures |FaceBytes(faces)| % 12 == 0 && |FaceBytes(faces)| / 12 == |faces|
  {
    ConcatUniformLength(PackedFaces(faces), 12);
    TwelveTimes(|faces|);
  }

  lemma TwelveTimes(n: nat)
    ensures (12 * n) % 12 == 0 && (12 * n) / 12 == n
  {
  }

  lemma FaceBytesSnoc(front: seq<(nat, nat, nat)>, f: (nat, nat, nat))
    requires PackableFace(f) && forall t :: 0 <= t < |front| ==> PackableFace(front[t])
    ensures FaceBytes(front + [f]) == FaceBytes(front) + PackFace(f)
  {
    var p := PackedFaces(front + [f]);
    assert p[..|front|] == PackedFaces(front) by {
      assert forall t :: 0 <= t < |front| ==> (front + [f])[t] == front[t];
    }
    assert p[|front|] == PackFace(f);
  }

  lemma FaceBytesPrefixSnoc(faces: seq<(nat, nat, nat)>, i: nat)
    requires i < |faces| && forall t :: 0 <= t <= i ==> PackableFace(faces[t])
    ensures FaceBytes(faces[..i + 1]) == FaceBytes(faces[..i]) + PackFace(faces[i])
  {
    assert faces[..i + 1] == faces[..i] + [faces[i]];
    FaceBytesSnoc(faces[..i], faces[i]);
  }

  /** Reading a face table back: three little-endian words per 12 bytes. */
  function DecodeFace(b: seq<byte>): (nat, nat, nat)
    requires |b| == 12
  {
    (LeU32(b[0..4]), LeU32(b[4..8]), LeU32(b[8..12]))
  }

  function DecodeFaces(b: seq<byte>): (r: seq<(nat, nat, nat)>)
    requires |b| % 12 == 0
    ensures |r| == |b| / 12
    ensures forall t :: 0 <= t < |r| ==> r[t] == DecodeFace(b[12 * t..12 * t + 12])
  {
    seq(|b| / 12, t requires 0 <= t < |b| / 12 => DecodeFace(b[12 * t..12 * t + 12]))
  }

  lemma DecodePackedFace(f: (nat, nat, nat))
    requires PackableFace(f)
    ensures DecodeFace(PackFace(f)) == f
  {
    var b := PackFace(f);
    assert b[0..4] == PackU32Le(f.0);
    assert b[4..8] == PackU32Le(f.1);
    assert b[8..12] == PackU32Le(f.2);
    PackU32LeRoundTrip(f.0);
    PackU32LeRoundTrip(f.1);
    PackU32LeRoundTrip(f.2);
  }

  /** The 12 bytes of face t decode to face t. */
  lemma FaceChunkDecodes(faces: seq<(nat, nat, nat)>, t: nat)
    requires t < |faces| && forall u :: 0 <= u < |faces| ==> PackableFace(faces[u])
    ensures 12 * t + 12 <= |FaceBytes(faces)|
    ensures DecodeFace(FaceBytes(faces)[12 * t..12 * t + 12]) == faces[t]
  {
    ConcatUniformAt(PackedFaces(faces), 12, t);
    DecodePackedFace(faces[t]);
  }

  /** Decoding the exported face table gives back the faces. */
  lemma FaceBytesRoundTrip(faces: seq<(nat, nat, nat)>)
    requires forall t :: 0 <= t < |faces| ==> PackableFace(faces[t])
    ensures |FaceBytes(faces)| % 12 == 0
    ensures DecodeFaces(FaceBytes(faces)) == faces
  {
    FaceBytesLength(faces);
    forall t | 0 <= t < |faces|
      ensures DecodeFaces(FaceBytes(faces))[t] == faces[t]
    {
      FaceChunkDecodes(faces, t);
    }
  }

  /** `export_face_data`. Python's `struct.pack` raises on an index of 2^32 or more;
      such a table yields None. */
  method ExportFaceData(faces: seq<(nat, nat, nat)>) returns (r: Option<seq<byte>>)
    ensures r.Some? <==> forall t :: 0 <= t < |faces| ==> PackableFace(faces[t])
    ensures r.Some? ==> r.value == FaceBytes(faces) && |r.value| == 12 * |faces|
  {
    var out := [];
    for i := 0 to |faces|
      invariant forall t :: 0 <= t < i ==> PackableFace(faces[t])
      invariant out == FaceBytes(faces[..i])
    {
      if !PackableFace(faces[i]) {
        return None;
      }
      FaceBytesPrefixSnoc(faces, i);
      out := out + PackFace(faces[i]);
    }
    assert faces[..|faces|] == faces;
    FaceBytesLength(faces);
    r := Some(out);
  }

  /** The uncompressed sizes `compare_with_dcm` sets against the DCM payloads. */
  function StlSizes(m: Mesh): (sizes: (nat, nat))
    ensures sizes.0 % RecordLength == 0 && sizes.1 % 12 == 0
  {
    (RecordLength * |m.vertices|, 12 * |m.faces|)
  }

  /** The comparison sizes are the lengths of the two exports. */
  lemma ExportsHaveStatedSizes(m: Mesh)
    requires forall i :: 0 <= i < |m.vertices| ==> |m.vertices[i]| == RecordLength
    requires forall t :: 0 <= t < |m.faces| ==> PackableFace(m.faces[t])
    ensures |Concat(m.vertices)| == StlSizes(m).0
    ensures |FaceBytes(m.faces)| == StlSizes(m).1
  {
    ConcatUniformLength(m.vertices, RecordLength);
    FaceBytesLength(m.faces);
  }
}
