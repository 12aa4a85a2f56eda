/** First-occurrence canonicalisation of vertices: the `vertex_map`/`vertex_set`
    pattern every STL loader repeats. An item is kept the first time its key is
    seen; the index of an item is the position of its key among the kept ones. */
module Canon {
  import opened Collections

  /** The keys of a list of items. */
  function Keys<T, K>(xs: seq<T>, key: T -> K): (ks: seq<K>)
    ensures |ks| == |xs|
    ensures forall i :: 0 <= i < |xs| ==> ks[i] == key(xs[i])
  {
    seq(|xs|, i requires 0 <= i < |xs| => key(xs[i]))
  }

  lemma KeysPrefix<T, K(!new)>(xs: seq<T>, key: T -> K, n: nat)
    requires n <= |xs|
    ensures Keys(xs[..n], key) == Keys(xs, key)[..n]
  {
  }

  lemma KeysSnoc<T, K(!new)>(xs: seq<T>, x: T, key: T -> K)
    ensures Keys(xs + [x], key) == Keys(xs, key) + [key(x)]
  {
  }

  /** The items whose key had not been seen before, in order of first appearance. */
  function Firsts<T, K(==,!new)>(xs: seq<T>, key: T -> K): (r: seq<T>)
    ensures |r| <= |xs|
    ensures NoDup(Keys(r, key))
    ensures forall k :: k in Keys(r, key) <==> k in Keys(xs, key)
  {
    if xs == [] then []
    else
      var front := xs[..|xs| - 1];
      var last := xs[|xs| - 1];
      var kept := Firsts(front, key);
      KeysPrefix(xs, key, |xs| - 1);
      KeysSnoc(kept, last, key);
      assert Keys(xs, key) == Keys(front, key) + [key(last)];
      if key(last) in Keys(kept, key) then kept else kept + [last]
  }

  /** Every kept item is an item of the input. */
  lemma {:induction false} FirstsFrom<T, K(!new)>(xs: seq<T>, key: T -> K)
    ensures forall i :: 0 <= i < |Firsts(xs, key)| ==> Firsts(xs, key)[i] in xs
  {
    if xs != [] {
      var front := xs[..|xs| - 1];
      FirstsFrom(front, key);
      assert forall v :: v in front ==> v in xs;
    }
  }

  /** Position of the first occurrence of k (`list.index`). */
  function IndexOf<K(==)>(ks: seq<K>, k: K): (i: nat)
    requires k in ks
    ensures i < |ks| && ks[i] == k
    ensures k !in ks[..i]
  {
    if ks[0] == k then 0
    else
      assert k in ks[1..];
      var j := IndexOf(ks[1..], k);
      assert ks[..j + 1] == [ks[0]] + ks[1..][..j];
      j + 1
  }

  lemma IndexOfNoDup<K(!new)>(ks: seq<K>, i: nat)
    requires NoDup(ks) && i < |ks|
    ensures IndexOf(ks, ks[i]) == i
  {
    var j := IndexOf(ks, ks[i]);
    assert ks[j] == ks[i];
  }

  /** Index given to item i: where its key sits among the first occurrences. */
  function FaceIndex<T, K(==,!new)>(xs: seq<T>, key: T -> K, i: nat): (n: nat)
    requires i < |xs|
    ensures n < |Firsts(xs, key)|
    ensures key(Firsts(xs, key)[n]) == key(xs[i])
  {
    var kept := Firsts(xs, key);
    assert key(xs[i]) in Keys(xs, key);
    IndexOf(Keys(kept, key), key(xs[i]))
  }

  /** Items up to a prefix are canonicalised the same way in the prefix and in the whole. */
  lemma {:induction false} FirstsPrefix<T, K(!new)>(xs: seq<T>, key: T -> K, n: nat)
    requires n <= |xs|
    ensures |Firsts(xs[..n], key)| <= |Firsts(xs, key)|
    ensures Firsts(xs[..n], key) == Firsts(xs, key)[..|Firsts(xs[..n], key)|]
    decreases |xs|
  {
    if n < |xs| {
      var front := xs[..|xs| - 1];
      FirstsPrefix(front, key, n);
      assert front[..n] == xs[..n];
    } else {
      assert xs[..n] == xs;
    }
  }

  /** The index of an item is the same whether computed on a prefix holding it or on the whole. */
  lemma FaceIndexPrefix<T, K(!new)>(xs: seq<T>, key: T -> K, i: nat, n: nat)
    requires i < n <= |xs|
    ensures FaceIndex(xs[..n], key, i) == FaceIndex(xs, key, i)
  {
    FirstsPrefix(xs, key, n);
    var small := Firsts(xs[..n], key);
    var big := Firsts(xs, key);
    var j := FaceIndex(xs[..n], key, i);
    KeysPrefix(big, key, |small|);
    assert Keys(small, key) == Keys(big, key)[..|small|];
    var jb := FaceIndex(xs, key, i);
    IndexOfNoDup(Keys(big, key), j);
    assert Keys(big, key)[j] == key(xs[i]);
  }

  /** A key seen for the first time gets the next free index: indices are 0, 1, 2, ... in order. */
  lemma FaceIndexFresh<T, K(!new)>(xs: seq<T>, key: T -> K, i: nat)
    requires i < |xs| && key(xs[i]) !in Keys(xs[..i], key)
    ensures Firsts(xs[..i + 1], key) == Firsts(xs[..i], key) + [xs[i]]
    ensures FaceIndex(xs, key, i) == |Firsts(xs[..i], key)|
  {
    var p := xs[..i + 1];
    assert p[..|p| - 1] == xs[..i];
    var kept := Firsts(xs[..i], key);
    assert key(xs[i]) !in Keys(kept, key);
    KeysSnoc(kept, xs[i], key);
    FaceIndexPrefix(xs, key, i, i + 1);
    IndexOfNoDup(Keys(kept + [xs[i]], key), |kept|);
  }

  /** Two items get the same index exactly when their keys are equal. */
  lemma FaceIndexSame<T, K(!new)>(xs: seq<T>, key: T -> K, i: nat, j: nat)
    requires i < |xs| && j < |xs|
    ensures FaceIndex(xs, key, i) == FaceIndex(xs, key, j) <==> key(xs[i]) == key(xs[j])
  {
  }

  /** The number of kept items is the number of distinct keys. */
  lemma FirstsCount<T, K(!new)>(xs: seq<T>, key: T -> K)
    ensures |Firsts(xs, key)| == |ToSet(Keys(xs, key))|
  {
    var ks := Keys(Firsts(xs, key), key);
    CardToSetNoDup(ks);
    assert ToSet(ks) == ToSet(Keys(xs, key));
  }

  /** Nothing is dropped exactly when no key repeats. */
  lemma {:induction false} FirstsAll<T, K(!new)>(xs: seq<T>, key: T -> K)
    ensures |Firsts(xs, key)| == |xs| <==> NoDup(Keys(xs, key))
  {
    if xs != [] {
      var front := xs[..|xs| - 1];
      var ks := Keys(xs, key);
      KeysPrefix(xs, key, |xs| - 1);
      assert ks == Keys(front, key) + [key(xs[|xs| - 1])];
      FirstsAll(front, key);
      NoDupSnoc(Keys(front, key), key(xs[|xs| - 1]));
    }
  }

  /** The indices given to all items, in order. */
  function Indices<T, K(==,!new)>(xs: seq<T>, key: T -> K): (r: seq<nat>)
    ensures |r| == |xs|
  {
    seq(|xs|, i requires 0 <= i < |xs| => FaceIndex(xs, key, i))
  }

  /** Processing one more item leaves the earlier indices alone. */
  lemma IndicesSnoc<T, K(!new)>(xs: seq<T>, x: T, key: T -> K)
    ensures Indices(xs + [x], key) == Indices(xs, key) + [FaceIndex(xs + [x], key, |xs|)]
  {
    var ys := xs + [x];
    assert ys[..|xs|] == xs;
    forall i | 0 <= i < |xs|
      ensures FaceIndex(ys, key, i) == FaceIndex(xs, key, i)
    {
      FaceIndexPrefix(ys, key, i, |xs|);
    }
  }

  /** A `vertex_map` that sends each kept key to its position among the kept items. */
  ghost predicate MapOk<T, K(!new)>(m: map<K, nat>, kept: seq<T>, key: T -> K)
  {
    (forall k :: k in m <==> k in Keys(kept, key)) &&
    (forall k :: k in m ==> m[k] < |kept| && key(kept[m[k]]) == k)
  }

  /** A key already in the map reuses its index. */
  lemma KnownVertex<T, K(!new)>(xs: seq<T>, x: T, key: T -> K, kept: seq<T>, m: map<K, nat>)
    requires kept == Firsts(xs, key) && MapOk(m, kept, key) && key(x) in m
    ensures Firsts(xs + [x], key) == kept
    ensures FaceIndex(xs + [x], key, |xs|) == m[key(x)]
  {
    var ys := xs + [x];
    assert ys[..|ys| - 1] == xs && ys[|ys| - 1] == x;
    var j := m[key(x)];
    IndexOfNoDup(Keys(kept, key), j);
  }

  /** A new key gets the next index, and its item is appended. */
  lemma NewVertex<T, K(!new)>(xs: seq<T>, x: T, key: T -> K, kept: seq<T>, m: map<K, nat>)
    requires kept == Firsts(xs, key) && key(x) !in Keys(kept, key)
    ensures Firsts(xs + [x], key) == kept + [x]
    ensures FaceIndex(xs + [x], key, |xs|) == |kept|
  {
    var ys := xs + [x];
    assert ys[..|xs|] == xs && ys[|xs|] == x;
    assert ys[..|xs| + 1] == ys;
    FaceIndexFresh(ys, key, |xs|);
  }

  /** Recording a new key at the next index keeps the map consistent. */
  lemma MapOkExtend<T, K(!new)>(m: map<K, nat>, kept: seq<T>, x: T, key: T -> K)
    requires MapOk(m, kept, key) && key(x) !in m
    ensures MapOk(m[key(x) := |kept|], kept + [x], key)
  {
    KeysSnoc(kept, x, key);
    var m' := m[key(x) := |kept|];
    var kept' := kept + [x];
    forall k | k in m'
      ensures m'[k] < |kept'| && key(kept'[m'[k]]) == k
    {
      if k != key(x) {
        assert kept'[m[k]] == kept[m[k]];
      }
    }
  }

  /** `if v not in vertex_map: vertex_map[v] = len(vertices); vertices.append(v)`,
      then the index `vertex_map[v]`. */
  method AddVertex<T, K(==,!new)>(v: T, key: T -> K, vertices: seq<T>, vertexMap: map<K, nat>, ghost seen: seq<T>)
    returns (index: nat, vertices': seq<T>, vertexMap': map<K, nat>)
    requires vertices == Firsts(seen, key) && MapOk(vertexMap, vertices, key)
    ensures vertices' == Firsts(seen + [v], key) && MapOk(vertexMap', vertices', key)
    ensures index == FaceIndex(seen + [v], key, |seen|)
  {
    if key(v) !in vertexMap {
      NewVertex(seen, v, key, vertices, vertexMap);
      MapOkExtend(vertexMap, vertices, v, key);
      vertexMap' := vertexMap[key(v) := |vertices|];
      vertices' := vertices + [v];
    } else {
      KnownVertex(seen, v, key, vertices, vertexMap);
      vertexMap', vertices' := vertexMap, vertices;
    }
    index := vertexMap'[key(v)];
  }

  /** The inner loop over the three vertices of one face. */
  method AddFace<T, K(==,!new)>(triple: seq<T>, key: T -> K, vertices: seq<T>, vertexMap: map<K, nat>, ghost seen: seq<T>)
    returns (faceIndices: seq<nat>, vertices': seq<T>, vertexMap': map<K, nat>)
    requires vertices == Firsts(seen, key) && MapOk(vertexMap, vertices, key)
    ensures vertices' == Firsts(seen + triple, key) && MapOk(vertexMap', vertices', key)
    ensures Indices(seen + triple, key) == Indices(seen, key) + faceIndices
  {
    faceIndices, vertices', vertexMap' := [], vertices, vertexMap;
    ghost var idx := Indices(seen, key);
    assert seen + triple[..0] == seen;
    for j := 0 to |triple|
      invariant vertices' == Firsts(seen + triple[..j], key) && MapOk(vertexMap', vertices', key)
      invariant Indices(seen + triple[..j], key) == idx + faceIndices
    {
      ghost var before := seen + triple[..j];
      var index;
      index, vertices', vertexMap' := AddVertex(triple[j], key, vertices', vertexMap', before);
      IndicesStep(seen, triple, j, key, idx, faceIndices, index);
      faceIndices := faceIndices + [index];
    }
    assert triple[..|triple|] == triple;
  }

  /** One vertex of a face: its index joins the indices of the face so far. */
  lemma IndicesStep<T, K(!new)>(seen: seq<T>, triple: seq<T>, j: nat, key: T -> K,
                                 idx: seq<nat>, faceIndices: seq<nat>, index: nat)
    requires j < |triple|
    requires Indices(seen + triple[..j], key) == idx + faceIndices
    requires index == FaceIndex(seen + triple[..j] + [triple[j]], key, |seen + triple[..j]|)
    ensures seen + triple[..j + 1] == seen + triple[..j] + [triple[j]]
    ensures Indices(seen + triple[..j + 1], key) == idx + (faceIndices + [index])
  {
    IndicesSnoc(seen + triple[..j], triple[j], key);
    AppendSliceSnoc(seen, triple, j);
  }

  /** The ASCII loaders' loop: each matched vertex triple becomes a face of three
      indices, and each new key is appended to the vertex list. */
  method IndexTriples<T, K(==,!new)>(triples: seq<(T, T, T)>, key: T -> K)
    returns (faces: seq<(nat, nat, nat)>, vertices: seq<T>)
    ensures vertices == Firsts(Flatten(triples), key)
    ensures |faces| == |triples|
    ensures IndexedBy(faces, Flatten(triples), key)
  {
    faces := [];
    vertices := [];
    var vertexMap: map<K, nat> := map[];
    ghost var seen: seq<T> := [];
    ghost var idx: seq<nat> := [];
    for t := 0 to |triples|
      invariant seen == Flatten(triples[..t])
      invariant vertices == Firsts(seen, key) && MapOk(vertexMap, vertices, key)
      invariant idx == Indices(seen, key)
      invariant |faces| == t
      invariant FacesMatch(faces, idx)
    {
      var triple := [triples[t].0, triples[t].1, triples[t].2];
      var faceIndices;
      faceIndices, vertices, vertexMap := AddFace(triple, key, vertices, vertexMap, seen);
      FlattenPrefixSnoc(triples, t);
      FacesMatchSnoc(faces, idx, faceIndices);
      faces := faces + [(faceIndices[0], faceIndices[1], faceIndices[2])];
      idx := idx + faceIndices;
      seen := seen + triple;
    }
    assert triples[..|triples|] == triples;
    IndicesFaces(Flatten(triples), key, faces);
  }

  /** Face u holds index entries 3u, 3u + 1 and 3u + 2. */
  ghost predicate FacesMatch(faces: seq<(nat, nat, nat)>, idx: seq<nat>)
  {
    |idx| == 3 * |faces| &&
    forall u :: 0 <= u < |faces| ==> faces[u] == (idx[3 * u], idx[3 * u + 1], idx[3 * u + 2])
  }

  lemma FacesMatchSnoc(faces: seq<(nat, nat, nat)>, idx: seq<nat>, fi: seq<nat>)
    requires FacesMatch(faces, idx) && |fi| == 3
    ensures FacesMatch(faces + [(fi[0], fi[1], fi[2])], idx + fi)
  {
    var faces' := faces + [(fi[0], fi[1], fi[2])];
    var idx' := idx + fi;
    forall u | 0 <= u < |faces'|
      ensures faces'[u] == (idx'[3 * u], idx'[3 * u + 1], idx'[3 * u + 2])
    {
      if u < |faces| {
        assert 3 * u + 2 < |idx|;
      }
    }
  }

  /** Face t holds the vertex-list positions of items 3t, 3t + 1 and 3t + 2. */
  ghost predicate IndexedBy<T, K(!new)>(faces: seq<(nat, nat, nat)>, xs: seq<T>, key: T -> K)
  {
    |xs| == 3 * |faces| &&
    forall t :: 0 <= t < |faces| ==>
      faces[t] == (FaceIndex(xs, key, 3 * t), FaceIndex(xs, key, 3 * t + 1), FaceIndex(xs, key, 3 * t + 2))
  }

  lemma IndicesFaces<T, K(!new)>(xs: seq<T>, key: T -> K, faces: seq<(nat, nat, nat)>)
    requires FacesMatch(faces, Indices(xs, key))
    ensures IndexedBy(faces, xs, key)
  {
  }

  /** An indexed mesh gives back every corner: each face entry is a valid position in
      the vertex list, and the vertex there has the corner's key. */
  lemma IndexedFacesResolve<T, K(!new)>(faces: seq<(nat, nat, nat)>, xs: seq<T>, key: T -> K, t: nat)
    requires IndexedBy(faces, xs, key) && t < |faces|
    ensures faces[t].0 < |Firsts(xs, key)| && key(Firsts(xs, key)[faces[t].0]) == key(xs[3 * t])
    ensures faces[t].1 < |Firsts(xs, key)| && key(Firsts(xs, key)[faces[t].1]) == key(xs[3 * t + 1])
    ensures faces[t].2 < |Firsts(xs, key)| && key(Firsts(xs, key)[faces[t].2]) == key(xs[3 * t + 2])
  {
  }

  /** Two corners share a vertex index exactly when their keys agree. */
  lemma IndexedFacesShare<T, K(!new)>(faces: seq<(nat, nat, nat)>, xs: seq<T>, key: T -> K, t: nat, u: nat)
    requires IndexedBy(faces, xs, key) && t < |faces| && u < |faces|
    ensures faces[t].0 == faces[u].0 <==> key(xs[3 * t]) == key(xs[3 * u])
  {
    FaceIndexSame(xs, key, 3 * t, 3 * u);
  }

  /** The items of a list of triples, three per triple. */
  function Flatten<T>(triples: seq<(T, T, T)>): (r: seq<T>)
    ensures |r| == 3 * |triples|
  {
    if triples == [] then []
    else
      var (a, b, c) := triples[|triples| - 1];
      Flatten(triples[..|triples| - 1]) + [a, b, c]
  }

  lemma FlattenSnoc<T>(triples: seq<(T, T, T)>, t: (T, T, T))
    ensures Flatten(triples + [t]) == Flatten(triples) + [t.0, t.1, t.2]
  {
    assert (triples + [t])[..|triples|] == triples;
  }

  lemma FlattenPrefixSnoc<T>(triples: seq<(T, T, T)>, t: nat)
    requires t < |triples|
    ensures Flatten(triples[..t + 1]) == Flatten(triples[..t]) + [triples[t].0, triples[t].1, triples[t].2]
  {
    FlattenSnoc(triples[..t], triples[t]);
    assert triples[..t + 1] == triples[..t] + [triples[t]];
  }

  /** Items 3t, 3t + 1 and 3t + 2 of the flattened list are the parts of triple t. */
  lemma {:induction false} FlattenAt<T>(triples: seq<(T, T, T)>, t: nat)
    requires t < |triples|
    ensures Flatten(triples)[3 * t] == triples[t].0
    ensures Flatten(triples)[3 * t + 1] == triples[t].1
    ensures Flatten(triples)[3 * t + 2] == triples[t].2
  {
    var front := triples[..|triples| - 1];
    if t < |front| {
      FlattenAt(front, t);
    }
  }

  /** The `vertex_set` loop of the ASCII vertex loader: first occurrences only. */
  method KeepFirsts<T, K(==,!new)>(items: seq<T>, key: T -> K) returns (kept: seq<T>)
    ensures kept == Firsts(items, key)
  {
    kept := [];
    var seenKeys: set<K> := {};
    for i := 0 to |items|
      invariant kept == Firsts(items[..i], key)
      invariant forall k :: k in seenKeys <==> k in Keys(kept, key)
    {
      var x := items[i];
      var front := items[..i];
      assert items[..i + 1] == front + [x];
      assert (front + [x])[..i] == front;
      KeysPrefix(front + [x], key, i);
      KeysSnoc(kept, x, key);
      if key(x) !in seenKeys {
        seenKeys := seenKeys + {key(x)};
        kept := kept + [x];
      }
    }
    assert items[..|items|] == items;
  }
}
