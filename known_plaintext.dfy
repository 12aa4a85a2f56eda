/** The known-plaintext attack on the DCM vertex payload: with the STL vertex bytes as
    plaintext it derives the XOR key, then tests the pairing for a byte substitution,
    for block consistency and for a key shared by every 12-byte vertex, and validates
    the key by decrypting. */
module KnownPlaintext {
  import opened Wrappers
  import opened Bytes
  import opened Collections
  import opened Pairing
  import opened XorKey

  /** What `try_byte_substitution` returns: the verdict, the table size, the first twenty
      conflicts `(i, dcm byte, stored byte, stl byte)` and the table when there is none.
      Iterating `bytes` in Python yields integers, so the table is keyed by numbers. */
  datatype SubstitutionReport = SubstitutionReport(
    isSubstitution: bool,
    tableSize: nat,
    conflicts: seq<(nat, nat, nat, nat)>,
    table: Option<map<nat, nat>>)

  /** How many conflicts are reported (`conflicts[:20]`). */
  const MaxConflicts: nat := 20

  /** Each DCM byte value always meets the same STL byte value. */
  ghost predicate ByteFunctional(dcm: seq<byte>, stl: seq<byte>, n: nat)
    requires n <= |dcm| && n <= |stl|
  {
    forall i, j :: 0 <= i < n && 0 <= j < n && dcm[i] == dcm[j] ==> stl[i] == stl[j]
  }

  lemma FunctionalInts(dcm: seq<byte>, stl: seq<byte>, n: nat)
    requires n <= |dcm| && n <= |stl|
    ensures Functional(Ints(dcm[..n]), Ints(stl[..n])) <==> ByteFunctional(dcm, stl, n)
  {
    forall i, j | 0 <= i < n && 0 <= j < n
      ensures (U8(dcm[i]) == U8(dcm[j]) <==> dcm[i] == dcm[j]) && (U8(stl[i]) == U8(stl[j]) <==> stl[i] == stl[j])
    {
      U8Injective(dcm[i], dcm[j]);
      U8Injective(stl[i], stl[j]);
    }
  }

  /** `try_byte_substitution`: scan the zipped pairs, store the first STL byte met for
      each DCM byte and record every later disagreement. */
  method TryByteSubstitution(dcm: seq<byte>, stl: seq<byte>) returns (rep: SubstitutionReport)
    ensures var n := Min(|dcm|, |stl|);
            (rep.isSubstitution <==> ByteFunctional(dcm, stl, n)) &&
            rep.tableSize == |ToSet(Ints(dcm[..n]))| &&
            rep.conflicts == Take(Conflicts(Ints(dcm[..n]), Ints(stl[..n])), MaxConflicts) &&
            rep.table == (if rep.isSubstitution then Some(FirstTable(Ints(dcm[..n]), Ints(stl[..n]))) else None)
    ensures |rep.conflicts| <= MaxConflicts
  {
    var n := Min(|dcm|, |stl|);
    var table, conflicts := SubstitutionScan(Ints(dcm[..n]), Ints(stl[..n]));
    SubstitutionVerdict(Ints(dcm[..n]), Ints(stl[..n]));
    FunctionalInts(dcm, stl, n);
    var ok := |conflicts| == 0;
    rep := SubstitutionReport(ok, |table|, Take(conflicts, MaxConflicts), if ok then Some(table) else None);
  }

  /** The loop of `try_byte_substitution` over the zipped pairs. */
  method SubstitutionScan(ks: seq<nat>, vs: seq<nat>) returns (table: map<nat, nat>, conflicts: seq<(nat, nat, nat, nat)>)
    requires |ks| == |vs|
    ensures table == FirstTable(ks, vs)
    ensures conflicts == Conflicts(ks, vs)
  {
    table := map[];
    conflicts := [];
    var i := 0;
    while i < |ks|
      invariant 0 <= i <= |ks|
      invariant table == FirstTable(ks[..i], vs[..i])
      invariant conflicts == Conflicts(ks[..i], vs[..i])
    {
      var d, s := ks[i], vs[i];
      ghost var before := table;
      if d in table {
        var stored := table[d];
        ConflictsSnoc(ks, vs, i, table, stored);
        if stored != s {
          conflicts := conflicts + [(i, d, stored, s)];
        }
      } else {
        ConflictsFresh(ks, vs, i, table);
        table := table[d := s];
      }
      TableStep(ks, vs, i, before, table);
      i := i + 1;
    }
    assert ks[..i] == ks && vs[..i] == vs;
  }

  /** After the whole scan: no conflict recorded exactly when the pairing is a function,
      and the table holds one entry per distinct DCM byte. */
  lemma SubstitutionVerdict(ks: seq<nat>, vs: seq<nat>)
    requires |ks| == |vs|
    ensures Conflicts(ks, vs) == [] <==> Functional(ks, vs)
    ensures |FirstTable(ks, vs)| == |ToSet(ks)|
  {
    ConflictsEmpty(ks, vs);
    NoConflictIffFunctional(ks, vs);
    FirstTableSize(ks, vs);
  }

  /** A returned table maps every scanned DCM byte to its STL byte, and every recorded
      conflict is a DCM byte met with an STL byte other than the stored one. */
  lemma SubstitutionSound(dcm: seq<byte>, stl: seq<byte>)
    requires |dcm| == |stl|
    ensures var ks, vs := Ints(dcm), Ints(stl);
            Functional(ks, vs) ==>
              forall i :: 0 <= i < |dcm| ==> U8(dcm[i]) in FirstTable(ks, vs) && FirstTable(ks, vs)[U8(dcm[i])] == U8(stl[i])
    ensures forall c :: c in Conflicts(Ints(dcm), Ints(stl)) ==>
              c.0 < |dcm| && c.1 == U8(dcm[c.0]) && c.3 == U8(stl[c.0]) && c.2 != c.3
  {
    var ks, vs := Ints(dcm), Ints(stl);
    ConflictsSound(ks, vs);
    if Functional(ks, vs) {
      FirstTableFunctional(ks, vs);
    }
  }

  /** The block sizes tried. */
  const BlockSizes: seq<nat> := [8, 16, 32, 64]

  /** The block sizes that divide a length n, in the order tried. */
  function DividingSizes(n: nat): (r: seq<nat>)
    ensures forall s :: s in r <==> s in BlockSizes && n % s == 0
  {
    Filter(BlockSizes, s => s > 0 && n % s == 0)
  }

  /** `data[i*size : i*size + size]` for each block index. */
  function Blocks(data: seq<byte>, size: nat, count: nat): (r: seq<seq<byte>>)
    ensures |r| == count
    ensures forall i :: 0 <= i < count ==> r[i] == Slice(data, size * i, size * i + size)
  {
    seq(count, i requires 0 <= i < count => Slice(data, size * i, size * i + size))
  }

  /** One entry of `try_block_cipher_detection`'s result. */
  datatype BlockReport = BlockReport(blockSize: nat, consistent: bool, uniqueBlocks: nat)

  /** The block dictionary scan: store the STL block met with each DCM block and stop at
      the first DCM block met again with a different STL block. */
  method BlockConsistency(ks: seq<seq<byte>>, vs: seq<seq<byte>>) returns (consistent: bool, unique: nat)
    requires |ks| == |vs|
    ensures consistent <==> Functional(ks, vs)
    ensures unique == |ToSet(ks[..FirstConflict(ks, vs)])|
    ensures unique <= |ks|
  {
    var table: map<seq<byte>, seq<byte>> := map[];
    consistent := true;
    var i := 0;
    while i < |ks|
      invariant 0 <= i <= |ks|
      invariant table == FirstTable(ks[..i], vs[..i])
      invariant forall j :: 0 <= j < i ==> !ConflictAt(ks, vs, j)
    {
      ScanStep(ks, vs, i, table);
      if ks[i] in table {
        if table[ks[i]] != vs[i] {
          consistent := false;
          break;
        }
      } else {
        table := table[ks[i] := vs[i]];
      }
      i := i + 1;
    }
    FirstConflictAt(ks, vs, i);
    NoConflictIffFunctional(ks, vs);
    FirstTableSize(ks[..i], vs[..i]);
    CardToSet(ks[..i]);
    unique := |table|;
  }

  /** The report for one block size, as the scan defines it. */
  ghost predicate BlockReportOf(dcm: seq<byte>, stl: seq<byte>, r: BlockReport)
  {
    r.blockSize > 0 &&
    var count := |dcm| / r.blockSize;
    var ks := Blocks(dcm, r.blockSize, count);
    var vs := Blocks(stl, r.blockSize, count);
    (r.consistent <==> Functional(ks, vs)) &&
    r.uniqueBlocks == |ToSet(ks[..FirstConflict(ks, vs)])| &&
    r.uniqueBlocks <= count
  }

  /** The scan for one block size that divides the DCM length. */
  method ReportBlockSize(dcm: seq<byte>, stl: seq<byte>, size: nat) returns (rep: BlockReport)
    requires size > 0
    ensures rep.blockSize == size && BlockReportOf(dcm, stl, rep)
  {
    var count := |dcm| / size;
    var ks := Blocks(dcm, size, count);
    var vs := Blocks(stl, size, count);
    var consistent, unique := BlockConsistency(ks, vs);
    rep := BlockReport(size, consistent, unique);
  }

  /** `try_block_cipher_detection`: one report per block size dividing the DCM length. */
  method TryBlockCipherDetection(dcm: seq<byte>, stl: seq<byte>) returns (reports: seq<BlockReport>)
    ensures |reports| == |DividingSizes(|dcm|)|
    ensures forall j :: 0 <= j < |reports| ==>
              reports[j].blockSize == DividingSizes(|dcm|)[j] && BlockReportOf(dcm, stl, reports[j])
  {
    var p := (s: nat) => s > 0 && |dcm| % s == 0;
    reports := [];
    var j := 0;
    while j < |BlockSizes|
      invariant 0 <= j <= |BlockSizes|
      invariant |reports| == |Filter(BlockSizes[..j], p)|
      invariant forall t :: 0 <= t < |reports| ==>
                  reports[t].blockSize == Filter(BlockSizes[..j], p)[t] && BlockReportOf(dcm, stl, reports[t])
    {
      var size := BlockSizes[j];
      FilterPrefixSnoc(BlockSizes, j, p);
      if |dcm| % size == 0 {
        var rep := ReportBlockSize(dcm, stl, size);
        reports := reports + [rep];
      }
      j := j + 1;
    }
    assert BlockSizes[..|BlockSizes|] == BlockSizes;
  }

  /** Bytes per vertex and the number of vertices examined. */
  const VertexSize: nat := 12
  const MaxVertices: nat := 100

  /** The per-vertex XOR keys of the first `min(100, len(dcm) // 12)` vertices. */
  function VertexKeys(dcm: seq<byte>, stl: seq<byte>): (keys: seq<seq<byte>>)
    ensures |keys| == Min(MaxVertices, |dcm| / VertexSize)
    ensures forall i :: 0 <= i < |keys| ==>
              keys[i] == ZipXor(Slice(dcm, 12 * i, 12 * i + 12), Slice(stl, 12 * i, 12 * i + 12))
  {
    seq(Min(MaxVertices, |dcm| / VertexSize),
        i requires 0 <= i => ZipXor(Slice(dcm, 12 * i, 12 * i + 12), Slice(stl, 12 * i, 12 * i + 12)))
  }

  /** The XOR of each key with the one before it. */
  function KeyDiffs(keys: seq<seq<byte>>): (d: seq<seq<byte>>)
    ensures |d| == Max(0, |keys| - 1)
    ensures forall i :: 0 <= i < |d| ==> d[i] == ZipXor(keys[i + 1], keys[i])
  {
    seq(Max(0, |keys| - 1), i requires 0 <= i < |keys| - 1 => ZipXor(keys[i + 1], keys[i]))
  }

  /** What `analyze_vertex_by_vertex` returns. */
  datatype VertexReport = VertexReport(
    uniqueVertexKeys: nat,
    sameKeyPerVertex: bool,
    vertexKey: Option<seq<byte>>,
    uniqueKeyDiffs: Option<nat>,
    keyDiffPattern: Option<set<seq<byte>>>)

  /** The report on a list of vertex keys. */
  function Summarize(keys: seq<seq<byte>>): (r: VertexReport)
    ensures r.uniqueVertexKeys == |ToSet(keys)| && r.uniqueVertexKeys <= |keys|
    ensures r.sameKeyPerVertex <==> keys != [] && forall i :: 0 <= i < |keys| ==> keys[i] == keys[0]
    ensures r.vertexKey.Some? <==> r.sameKeyPerVertex
    ensures r.vertexKey.Some? ==> forall i :: 0 <= i < |keys| ==> keys[i] == r.vertexKey.value
    ensures r.uniqueKeyDiffs.Some? <==> r.uniqueVertexKeys > 1
    ensures r.uniqueKeyDiffs.Some? ==> r.uniqueKeyDiffs.value == |ToSet(KeyDiffs(keys))|
    ensures r.keyDiffPattern.Some? <==> |ToSet(keys)| > 1 && |ToSet(KeyDiffs(keys))| <= 5
    ensures r.keyDiffPattern.Some? ==> r.uniqueKeyDiffs.Some? && |r.keyDiffPattern.value| <= 5
    ensures r.keyDiffPattern.Some? ==> r.keyDiffPattern.value == ToSet(KeyDiffs(keys))
    ensures r.keyDiffPattern.Some? ==>
              forall i :: 0 <= i < |keys| - 1 ==> ZipXor(keys[i + 1], keys[i]) in r.keyDiffPattern.value
  {
    SingleValue(keys);
    CardToSet(keys);
    var unique := ToSet(keys);
    var same := |unique| == 1;
    var diffs := ToSet(KeyDiffs(keys));
    VertexReport(
      |unique|,
      same,
      if same then Some(keys[0]) else None,
      if |unique| > 1 then Some(|diffs|) else None,
      if |unique| > 1 && |diffs| <= 5 then Some(diffs) else None)
  }

  /** A key and the diffs rebuild every later key: the chain of XORs is invertible. */
  lemma DiffsRebuildKeys(keys: seq<seq<byte>>, i: nat)
    requires i + 1 < |keys| && |keys[i]| == |keys[i + 1]|
    ensures ZipXor(keys[i], KeyDiffs(keys)[i]) == keys[i + 1]
  {
    ZipXorSelfInverse(keys[i + 1], keys[i]);
  }

  /** A diff is all zeros exactly when the two keys agree. */
  lemma ZeroDiffIffEqual(a: seq<byte>, b: seq<byte>)
    requires |a| == |b|
    ensures ZipXor(a, b) == seq(|a|, _ => 0 as byte) <==> a == b
  {
    if ZipXor(a, b) == seq(|a|, _ => 0 as byte) {
      forall i | 0 <= i < |a|
        ensures a[i] == b[i]
      {
        assert a[i] ^ b[i] == 0;
      }
    }
  }

  /** The key loop of `analyze_vertex_by_vertex`. */
  method CollectVertexKeys(dcm: seq<byte>, stl: seq<byte>) returns (keys: seq<seq<byte>>)
    ensures keys == VertexKeys(dcm, stl)
  {
    var count := Min(MaxVertices, |dcm| / VertexSize);
    ghost var all := VertexKeys(dcm, stl);
    keys := [];
    var i := 0;
    while i < count
      invariant 0 <= i <= count && keys == all[..i]
    {
      var offset := 12 * i;
      assert all[..i + 1] == all[..i] + [all[i]];
      keys := keys + [ZipXor(Slice(dcm, offset, offset + 12), Slice(stl, offset, offset + 12))];
      i := i + 1;
    }
    assert all[..count] == all;
  }

  /** The diff loop of `analyze_vertex_by_vertex`. */
  method ConsecutiveDiffs(keys: seq<seq<byte>>) returns (diffs: seq<seq<byte>>)
    ensures diffs == KeyDiffs(keys)
  {
    diffs := [];
    var j := 1;
    while j < |keys|
      invariant 1 <= j <= Max(1, |keys|) && |diffs| == j - 1
      invariant forall t :: 0 <= t < j - 1 ==> diffs[t] == KeyDiffs(keys)[t]
    {
      diffs := diffs + [ZipXor(keys[j], keys[j - 1])];
      j := j + 1;
    }
  }

  /** `analyze_vertex_by_vertex`: the keys of the first hundred vertices, their distinct
      count and, when they differ, the distinct diffs of consecutive keys. */
  method AnalyzeVertexByVertex(dcm: seq<byte>, stl: seq<byte>) returns (rep: VertexReport)
    ensures rep == Summarize(VertexKeys(dcm, stl))
  {
    var keys := CollectVertexKeys(dcm, stl);
    var unique := ToSet(keys);
    var same := |unique| == 1;
    var vertexKey: Option<seq<byte>> := None;
    if same {
      vertexKey := Some(keys[0]);
    }
    var uniqueDiffs: Option<nat> := None;
    var pattern: Option<set<seq<byte>>> := None;
    if |unique| > 1 {
      var diffs := ConsecutiveDiffs(keys);
      var distinct := ToSet(diffs);
      uniqueDiffs := Some(|distinct|);
      if |distinct| <= 5 {
        pattern := Some(distinct);
      }
    }
    rep := VertexReport(|unique|, same, vertexKey, uniqueDiffs, pattern);
  }

  /** Both payloads cut to the shorter length. */
  function Truncate(dcm: seq<byte>, stl: seq<byte>): (r: (seq<byte>, seq<byte>))
    ensures |r.0| == |r.1| == Min(|dcm|, |stl|)
    ensures r.0 == dcm[..|r.0|] && r.1 == stl[..|r.1|]
    ensures |dcm| == |stl| ==> r == (dcm, stl)
  {
    var n := Min(|dcm|, |stl|);
    assert |dcm| == |stl| ==> dcm[..n] == dcm && stl[..n] == stl;
    (dcm[..n], stl[..n])
  }

  /** The dictionary `perform_known_plaintext_attack` returns, without the paths and the
      entropy. */
  datatype AttackReport = AttackReport(
    dcmSize: nat,
    stlSize: nat,
    keyUniqueBytes: nat,
    hasRepeatingPattern: bool,
    isSubstitutionCipher: bool,
    vertex: VertexReport,
    patternLength: Option<nat>,
    patternHex: Option<string>,
    validation: Validation)

  /** What the attack reports on two payloads of the same length. */
  ghost predicate ReportOf(d: seq<byte>, s: seq<byte>, rep: AttackReport)
    requires |d| == |s|
  {
    var key := ZipXor(d, s);
    rep.dcmSize == |d| && rep.stlSize == |s| && rep.keyUniqueBytes == |ToSet(key)| &&
    rep.patternLength == ShortestPeriod(key) &&
    (rep.hasRepeatingPattern <==> rep.patternLength.Some?) &&
    rep.patternHex == (match ShortestPeriod(key)
                       case Some(k) => Some(Hex(Take(key[..k], 64)))
                       case None => None) &&
    (rep.isSubstitutionCipher <==> ByteFunctional(d, s, |d|)) &&
    rep.vertex == Summarize(VertexKeys(d, s)) &&
    rep.validation == ValidateAsWritten(d, s, key, ShortestPeriod(key))
  }

  /** The analyses and the validation on the truncated payloads; an empty key stops the
      attack in `analyze_xor_key`. */
  method AttackPayloads(d: seq<byte>, s: seq<byte>) returns (r: Result<AttackReport, AttackError>)
    requires |d| == |s|
    ensures r.Err? <==> |d| == 0
    ensures r.Ok? ==> ReportOf(d, s, r.value)
  {
    var key := ZipXor(d, s);
    var analysis := AnalyzeXorKey(key);
    if analysis.Err? {
      return Err(analysis.error);
    }
    var a := analysis.value;
    var sub := TryByteSubstitution(d, s);
    var vertex := AnalyzeVertexByVertex(d, s);
    var hex: Option<string> := None;
    if a.patternSample.Some? {
      hex := Some(Hex(a.patternSample.value));
    }
    var validation := ValidateAsWritten(d, s, key, a.patternLength);
    var rep := AttackReport(|d|, |s|, a.uniqueBytes, a.patternLength.Some?, sub.isSubstitution,
                            vertex, a.patternLength, hex, validation);
    return Ok(rep);
  }

  /** `perform_known_plaintext_attack` on the loaded payloads: truncate to the shorter
      length, derive the key, analyse it, run the substitution and vertex tests, then
      validate by decrypting with the reported 64-byte sample of the shortest period, or
      with the full key when there is none. Validation matches every byte when there is
      no period or the period fits in the sample. */
  method PerformAttack(dcm: seq<byte>, stl: seq<byte>) returns (r: Result<(AttackReport, seq<byte>), AttackError>)
    ensures r.Err? <==> Min(|dcm|, |stl|) == 0
    ensures r.Ok? ==>
              var n := Min(|dcm|, |stl|);
              r.value.1 == ZipXor(dcm[..n], stl[..n]) && |r.value.1| == n &&
              ReportOf(dcm[..n], stl[..n], r.value.0)
    ensures r.Ok? && (r.value.0.patternLength.None? || r.value.0.patternLength.value <= 64) ==>
              r.value.0.validation.matchCount == r.value.0.stlSize &&
              (r.value.0.validation.PatternCheck? ==> r.value.0.validation.success) &&
              (r.value.0.validation.FullKeyCheck? ==> r.value.0.validation.fullKeyWorks)
  {
    var n := Min(|dcm|, |stl|);
    var d, s := dcm[..n], stl[..n];
    var report := AttackPayloads(d, s);
    if report.Err? {
      return Err(report.error);
    }
    var p := ShortestPeriod(ZipXor(d, s));
    if p.None? || p.value <= 64 {
      ValidateAsWrittenSucceeds(d, s);
    }
    return Ok((report.value, ZipXor(d, s)));
  }

  /** On the 130-byte key with period 65 and an all-zero STL payload, the attack reports
      the period, yet its validation fails and gives no key. */
  lemma AttackRejectsPeriod65(rep: AttackReport)
    requires ReportOf(Period65Key(), seq(130, _ => 0 as byte), rep)
    ensures rep.patternLength == Some(65)
    ensures rep.validation.PatternCheck? && !rep.validation.success && rep.validation.keyHex.None?
  {
    ZipXorZeros(Period65Key());
    TruncatedPatternRejectsPeriod65();
  }
}
