/** The decoder: an XOR key derived from a DCM vertex payload and the matching STL vertex
    bytes, decryption of the payload into 12-byte vertices, the first-occurrence vertex
    bytes of a binary STL, and the byte layout of the binary STL writer. */
module DcmDecoder {
  import opened Wrappers
  import opened Bytes
  import opened Collections
  import opened Canon
  import opened StlLayout

  /** The `ValueError`s of key derivation and decryption. */
  datatype KeyError = SizeMismatch(dcmLength: nat, stlLength: nat) | KeyTooShort(keyLength: nat, dataLength: nat)

  /** `derive_xor_key`: the byte-wise XOR of two payloads of equal length. */
  function DeriveXorKey(dcm: seq<byte>, stl: seq<byte>): (r: Result<seq<byte>, KeyError>)
    ensures r.Ok? <==> |dcm| == |stl|
    ensures r.Ok? ==> |r.value| == |dcm| && forall i :: 0 <= i < |dcm| ==> r.value[i] == dcm[i] ^ stl[i]
    ensures r.Err? ==> r.error == SizeMismatch(|dcm|, |stl|)
  {
    if |dcm| != |stl| then Err(SizeMismatch(|dcm|, |stl|)) else Ok(ZipXor(dcm, stl))
  }

  /** The decryption comprehension of `decrypt_vertices`: only the first `len(data)` key
      bytes are used, and a shorter key is refused. */
  function Decrypt(data: seq<byte>, key: seq<byte>): (r: Result<seq<byte>, KeyError>)
    ensures r.Ok? <==> |key| >= |data|
    ensures r.Ok? ==> |r.value| == |data| && forall i :: 0 <= i < |data| ==> r.value[i] == data[i] ^ key[i]
    ensures r.Err? ==> r.error == KeyTooShort(|key|, |data|)
  {
    if |key| < |data| then Err(KeyTooShort(|key|, |data|)) else Ok(ZipXor(data, key))
  }

  /** Key bytes past the data length play no part. */
  lemma DecryptIgnoresExtraKey(data: seq<byte>, key: seq<byte>, extra: seq<byte>)
    requires |key| >= |data|
    ensures Decrypt(data, key + extra) == Decrypt(data, key)
  {
    var a := Decrypt(data, key + extra).value;
    var b := Decrypt(data, key).value;
    assert forall i :: 0 <= i < |data| ==> (key + extra)[i] == key[i];
    assert a == b;
  }

  /** Decrypting the DCM payload with the key derived from it and the STL bytes gives the
      STL bytes back, and no other key of that length does. */
  lemma DeriveThenDecrypt(dcm: seq<byte>, stl: seq<byte>)
    requires |dcm| == |stl|
    ensures Decrypt(dcm, DeriveXorKey(dcm, stl).value) == Ok(stl)
    ensures forall key :: |key| == |dcm| && Decrypt(dcm, key) == Ok(stl) ==> key == DeriveXorKey(dcm, stl).value
  {
    ZipXorSelfInverse(dcm, stl);
    forall key | |key| == |dcm| && Decrypt(dcm, key) == Ok(stl)
      ensures key == DeriveXorKey(dcm, stl).value
    {
      assert forall i :: 0 <= i < |dcm| ==> stl[i] == dcm[i] ^ key[i];
      assert forall i :: 0 <= i < |dcm| ==> key[i] == dcm[i] ^ (dcm[i] ^ key[i]);
    }
  }

  /** `decrypt_vertices`: decrypt, then cut into 12-byte vertices, dropping a short tail. */
  method DecryptVertices(data: seq<byte>, key: seq<byte>) returns (r: Result<seq<Record>, KeyError>)
    ensures r.Ok? <==> |key| >= |data|
    ensures r.Ok? ==> r.value == Records(Decrypt(data, key).value)
    ensures r.Err? ==> r.error == KeyTooShort(|key|, |data|)
  {
    if |key| < |data| {
      return Err(KeyTooShort(|key|, |data|));
    }
    var decrypted := ZipXor(data, key);
    var vertices: seq<Record> := [];
    for i := 0 to |decrypted| / RecordLength
      invariant vertices == Records(decrypted)[..i]
    {
      vertices := vertices + [decrypted[RecordLength * i..RecordLength * (i + 1)]];
    }
    r := Ok(vertices);
  }

  /** With the derived key, the vertices are the STL bytes cut into records: `len // 12` of
      them, and joined again they are the STL bytes up to the last whole record. */
  lemma DecryptVerticesRoundTrip(dcm: seq<byte>, stl: seq<byte>)
    requires |dcm| == |stl|
    ensures Records(Decrypt(dcm, DeriveXorKey(dcm, stl).value).value) == Records(stl)
    ensures |Records(stl)| == |dcm| / RecordLength
    ensures Concat(Records(stl)) == stl[..RecordLength * (|stl| / RecordLength)]
  {
    DeriveThenDecrypt(dcm, stl);
    ConcatRecords(stl);
  }

  /** `load_stl_vertices`: the binary walk, then the kept corner records packed back to back. */
  method LoadStlVertices<K(==,!new)>(data: seq<byte>, key: Record -> K) returns (r: Result<seq<byte>, UnpackError>)
    ensures r.Ok? <==> WalkFits(data)
    ensures r.Ok? ==> r.value == Concat(Firsts(CornerList(data), key))
    ensures r.Ok? ==> |r.value| == RecordLength * |ToSet(Keys(CornerList(data), key))|
  {
    var walk := ReadBinary(data, key);
    if walk.Err? {
      return Err(walk.error);
    }
    KeptRecords(data, key);
    WalkCounts(data, key, walk.value);
    var out := PackVertices(walk.value.vertices);
    r := Ok(out);
  }

  /** Every kept vertex is one of the walk's 12-byte corner records. */
  lemma KeptRecords<K(!new)>(data: seq<byte>, key: Record -> K)
    requires WalkFits(data)
    ensures forall i :: 0 <= i < |Firsts(CornerList(data), key)| ==> |Firsts(CornerList(data), key)[i]| == RecordLength
  {
    var xs := CornerList(data);
    FirstsFrom(xs, key);
    var cs := Corners(data, TriangleCount(data));
    forall k | 0 <= k < |xs|
      ensures |xs[k]| == RecordLength
    {
      FlattenAt(cs, k / 3);
    }
  }

  /** The text the writer puts in the header. */
  const HeaderPrefix: string := "Decoded from DCM - "

  /** `str.encode('ascii')`; None where Python raises `UnicodeEncodeError`. */
  function AsciiEncode(s: string): (r: Option<seq<byte>>)
    ensures r.Some? <==> forall i :: 0 <= i < |s| ==> s[i] as int < 0x80
    ensures r.Some? ==> |r.value| == |s| && forall i :: 0 <= i < |s| ==> U8(r.value[i]) == s[i] as int
  {
    if forall i :: 0 <= i < |s| ==> s[i] as int < 0x80 then
      Some(seq(|s|, i requires 0 <= i < |s| => AsciiByte(s[i])))
    else None
  }

  /** The byte of an ASCII character. */
  function AsciiByte(c: char): (b: byte)
    requires c as int < 0x80
    ensures U8(b) == c as int
  {
    var n: nat := c as int;
    ByteOfSmall(n);
    n as byte
  }

  /** `header[:80].ljust(80, b'\x00')`. */
  function FitHeader(h: seq<byte>): (r: seq<byte>)
    ensures |r| == HeaderLength
    ensures forall i :: 0 <= i < HeaderLength ==> r[i] == if i < |h| then h[i] else 0
  {
    if |h| >= HeaderLength then h[..HeaderLength] else h + seq(HeaderLength - |h|, _ => 0)
  }

  /** The 80 header bytes for a mesh name, or None when the name is not ASCII. */
  function HeaderBytes(name: string): (r: Option<seq<byte>>)
    ensures r.Some? ==> |r.value| == HeaderLength
  {
    match AsciiEncode(HeaderPrefix + name)
    case None => None
    case Some(h) => Some(FitHeader(h))
  }

  /** The header starts with "Decoded from DCM - " and is NUL-padded after the text. */
  lemma HeaderLayout(name: string)
    requires HeaderBytes(name).Some?
    ensures forall i :: 0 <= i < |HeaderPrefix| ==> U8(HeaderBytes(name).value[i]) == HeaderPrefix[i] as int
    ensures forall i :: |HeaderPrefix| + |name| <= i < HeaderLength ==> HeaderBytes(name).value[i] == 0
  {
    var text := HeaderPrefix + name;
    var h := AsciiEncode(text).value;
    assert forall i :: 0 <= i < |HeaderPrefix| ==> text[i] == HeaderPrefix[i];
  }

  /** The fixed normal (0.0, 0.0, 1.0) as three little-endian float32 values. */
  const UpNormal: Record := [0, 0, 0, 0, 0, 0, 0, 0, 0, 0, 0x80, 0x3F]

  /** One 50-byte triangle record: normal, three corners and a zero attribute count. */
  function TriangleBytes(v1: Record, v2: Record, v3: Record): (r: seq<byte>)
    requires |v1| == RecordLength && |v2| == RecordLength && |v3| == RecordLength
    ensures |r| == TriangleLength
  {
    UpNormal + v1 + v2 + v3 + [0, 0]
  }

  /** All three indices of a face name a vertex. */
  predicate FaceValid(vertexCount: nat, f: (nat, nat, nat))
  {
    f.0 < vertexCount && f.1 < vertexCount && f.2 < vertexCount
  }

  /** Every face is valid. */
  predicate AllValid(vertexCount: nat, faces: seq<(nat, nat, nat)>)
  {
    forall t :: 0 <= t < |faces| ==> faces[t].0 < vertexCount && faces[t].1 < vertexCount && faces[t].2 < vertexCount
  }

  /** Position of the first face with an index out of range, or the face count. */
  function FirstInvalid(vertexCount: nat, faces: seq<(nat, nat, nat)>): (r: nat)
    ensures r <= |faces|
    ensures AllValid(vertexCount, faces[..r])
    ensures r < |faces| ==> !FaceValid(vertexCount, faces[r])
  {
    if faces == [] then 0
    else if !FaceValid(vertexCount, faces[0]) then 0
    else 1 + FirstInvalid(vertexCount, faces[1..])
  }

  lemma {:induction false} FirstInvalidAt(vertexCount: nat, faces: seq<(nat, nat, nat)>, t: nat)
    requires t <= |faces|
    requires AllValid(vertexCount, faces[..t])
    requires t < |faces| ==> !FaceValid(vertexCount, faces[t])
    ensures FirstInvalid(vertexCount, faces) == t
  {
    if t > 0 {
      assert faces[..t][0] == faces[0];
      assert faces[1..][..t - 1] == faces[..t][1..];
      FirstInvalidAt(vertexCount, faces[1..], t - 1);
    }
  }

  /** The triangle records of a list of valid faces. */
  function Triangles(vertices: seq<Record>, faces: seq<(nat, nat, nat)>): (r: seq<seq<byte>>)
    requires forall i :: 0 <= i < |vertices| ==> |vertices[i]| == RecordLength
    requires AllValid(|vertices|, faces)
    ensures |r| == |faces|
    ensures forall t :: 0 <= t < |faces| ==>
              r[t] == TriangleBytes(vertices[faces[t].0], vertices[faces[t].1], vertices[faces[t].2])
  {
    seq(|faces|, t requires 0 <= t < |faces| =>
      TriangleBytes(vertices[faces[t].0], vertices[faces[t].1], vertices[faces[t].2]))
  }

  /** What the writer fails with: a non-ASCII name, a face count `struct.pack('<I')`
      rejects, or the first face whose vertex lookup raises `IndexError`. */
  datatype WriteError = NonAsciiName | CountTooLarge(count: nat) | MissingVertex(face: nat)

  /** The bytes of a binary STL for a mesh whose vertices are 12-byte records. */
  function StlFile(name: string, vertices: seq<Record>, faces: seq<(nat, nat, nat)>): (r: Result<seq<byte>, WriteError>)
    requires forall i :: 0 <= i < |vertices| ==> |vertices[i]| == RecordLength
  {
    if HeaderBytes(name).None? then Err(NonAsciiName)
    else if |faces| >= 0x1_0000_0000 then Err(CountTooLarge(|faces|))
    else if FirstInvalid(|vertices|, faces) < |faces| then Err(MissingVertex(FirstInvalid(|vertices|, faces)))
    else Ok(HeaderBytes(name).value + PackU32Le(|faces|) + Concat(Triangles(vertices, faces)))
  }

  /** `write_stl_binary`: the header, the count, then one record per face. */
  method WriteStlBinary(name: string, vertices: seq<Record>, faces: seq<(nat, nat, nat)>)
    returns (r: Result<seq<byte>, WriteError>)
    requires forall i :: 0 <= i < |vertices| ==> |vertices[i]| == RecordLength
    ensures r == StlFile(name, vertices, faces)
  {
    var header := HeaderBytes(name);
    if header.None? {
      return Err(NonAsciiName);
    }
    if |faces| >= 0x1_0000_0000 {
      return Err(CountTooLarge(|faces|));
    }
    var prefix := header.value + PackU32Le(|faces|);
    var body: seq<byte> := [];
    for t := 0 to |faces|
      invariant AllValid(|vertices|, faces[..t])
      invariant body == Concat(Triangles(vertices, faces[..t]))
    {
      var f := faces[t];
      if !FaceValid(|vertices|, f) {
        FirstInvalidAt(|vertices|, faces, t);
        return Err(MissingVertex(t));
      }
      assert faces[..t + 1] == faces[..t] + [f];
      ghost var done := Triangles(vertices, faces[..t]);
      ghost var next := Triangles(vertices, faces[..t + 1]);
      assert next == done + [TriangleBytes(vertices[f.0], vertices[f.1], vertices[f.2])];
      assert next[..|next| - 1] == done;
      body := body + TriangleBytes(vertices[f.0], vertices[f.1], vertices[f.2]);
    }
    FirstInvalidAt(|vertices|, faces, |faces|);
    assert faces[..|faces|] == faces;
    r := Ok(prefix + body);
  }

  /** The output is 84 + 50 bytes per face and announces the face count. */
  lemma StlFileLength(name: string, vertices: seq<Record>, faces: seq<(nat, nat, nat)>)
    requires forall i :: 0 <= i < |vertices| ==> |vertices[i]| == RecordLength
    requires StlFile(name, vertices, faces).Ok?
    ensures |StlFile(name, vertices, faces).value| == CountEnd + TriangleLength * |faces|
    ensures TriangleCount(StlFile(name, vertices, faces).value) == |faces|
  {
    var out := StlFile(name, vertices, faces).value;
    var prefix := HeaderBytes(name).value + PackU32Le(|faces|);
    ConcatUniformLength(Triangles(vertices, faces), TriangleLength);
    assert out[HeaderLength..CountEnd] == PackU32Le(|faces|);
    PackU32LeRoundTrip(|faces|);
  }

  /** Reading the writer's output back: it is not taken for ASCII, the walk succeeds, every
      normal is (0, 0, 1) and triangle t has the three vertices face t names. */
  lemma StlFileReadsBack(name: string, vertices: seq<Record>, faces: seq<(nat, nat, nat)>, out: seq<byte>)
    requires forall i :: 0 <= i < |vertices| ==> |vertices[i]| == RecordLength
    requires StlFile(name, vertices, faces) == Ok(out)
    ensures AllValid(|vertices|, faces)
    ensures |out| == CountEnd + TriangleLength * |faces| && TriangleCount(out) == |faces|
    ensures !LooksAscii(out) && WalkFits(out)
    ensures forall t :: 0 <= t < |faces| ==> Normals(out, |faces|)[t] == UpNormal
    ensures forall t :: 0 <= t < |faces| ==>
              Corners(out, |faces|)[t] == (vertices[faces[t].0], vertices[faces[t].1], vertices[faces[t].2])
  {
    assert faces[..|faces|] == faces;
    StlFileLength(name, vertices, faces);
    StlFileNotAscii(name, vertices, faces, out);
    StlFileRecords(name, vertices, faces, out);
  }

  /** The writer's header starts with a byte that is no case of 's'. */
  lemma StlFileNotAscii(name: string, vertices: seq<Record>, faces: seq<(nat, nat, nat)>, out: seq<byte>)
    requires forall i :: 0 <= i < |vertices| ==> |vertices[i]| == RecordLength
    requires StlFile(name, vertices, faces) == Ok(out)
    ensures !LooksAscii(out)
  {
    HeaderLayout(name);
    assert out[0] == HeaderBytes(name).value[0];
    assert LowerByte(out[0]) != Solid[0];
    assert LowerBytes(Slice(out, 0, 5))[0] == LowerByte(out[0]);
  }

  /** Triangle t of the writer's output holds the up normal and face t's vertices. */
  lemma StlFileRecords(name: string, vertices: seq<Record>, faces: seq<(nat, nat, nat)>, out: seq<byte>)
    requires forall i :: 0 <= i < |vertices| ==> |vertices[i]| == RecordLength
    requires StlFile(name, vertices, faces) == Ok(out)
    requires |out| == CountEnd + TriangleLength * |faces| && TriangleCount(out) == |faces|
    ensures AllValid(|vertices|, faces)
    ensures forall t :: 0 <= t < |faces| ==>
              Normal(out, t) == UpNormal &&
              (Corner(out, t, 0), Corner(out, t, 1), Corner(out, t, 2)) ==
                (vertices[faces[t].0], vertices[faces[t].1], vertices[faces[t].2])
  {
    assert faces[..|faces|] == faces;
    var prefix := HeaderBytes(name).value + PackU32Le(|faces|);
    var tris := Triangles(vertices, faces);
    assert out == prefix + Concat(tris);
    forall t | 0 <= t < |faces|
      ensures Normal(out, t) == UpNormal
      ensures (Corner(out, t, 0), Corner(out, t, 1), Corner(out, t, 2))
                == (vertices[faces[t].0], vertices[faces[t].1], vertices[faces[t].2])
    {
      TriangleSlices(prefix, tris, t, vertices[faces[t].0], vertices[faces[t].1], vertices[faces[t].2]);
    }
  }

  /** The four 12-byte fields of triangle record t after an 84-byte prefix. */
  lemma TriangleSlices(prefix: seq<byte>, tris: seq<seq<byte>>, t: nat, v1: Record, v2: Record, v3: Record)
    requires |prefix| == CountEnd
    requires forall j :: 0 <= j < |tris| ==> |tris[j]| == TriangleLength
    requires |v1| == RecordLength && |v2| == RecordLength && |v3| == RecordLength
    requires t < |tris| && tris[t] == TriangleBytes(v1, v2, v3)
    ensures |prefix + Concat(tris)| == CountEnd + TriangleLength * |tris|
    ensures Normal(prefix + Concat(tris), t) == UpNormal
    ensures Corner(prefix + Concat(tris), t, 0) == v1
    ensures Corner(prefix + Concat(tris), t, 1) == v2
    ensures Corner(prefix + Concat(tris), t, 2) == v3
  {
    var tri := tris[t];
    assert tri[0..12] == UpNormal && tri[12..24] == v1 && tri[24..36] == v2 && tri[36..48] == v3;
    SliceOfConcat(prefix, tris, TriangleLength, t, 0, 12);
    SliceOfConcat(prefix, tris, TriangleLength, t, 12, 24);
    SliceOfConcat(prefix, tris, TriangleLength, t, 24, 36);
    SliceOfConcat(prefix, tris, TriangleLength, t, 36, 48);
  }

  /** `decode_facets_placeholder`: connectivity decoding is not implemented, so no faces. */
  function DecodeFacetsPlaceholder(facetData: seq<byte>, facetCount: int, vertexCount: int): (r: seq<(nat, nat, nat)>)
    ensures r == []
  {
    []
  }

  /** Writing the placeholder's faces gives a bare 84-byte file announcing no triangles. */
  lemma PlaceholderWritesEmptyMesh(name: string, vertices: seq<Record>, facetData: seq<byte>, facetCount: int)
    requires forall i :: 0 <= i < |vertices| ==> |vertices[i]| == RecordLength
    requires HeaderBytes(name).Some?
    ensures StlFile(name, vertices, DecodeFacetsPlaceholder(facetData, facetCount, |vertices|)).Ok?
    ensures |StlFile(name, vertices, DecodeFacetsPlaceholder(facetData, facetCount, |vertices|)).value| == CountEnd
  {
    StlFileLength(name, vertices, []);
  }
}
