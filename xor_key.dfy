/** Analysis of a derived XOR key: its shortest repeating period, its long runs of one
    byte, and the decryption check that validates a key against the known plaintext. */
module XorKey {
  import opened Wrappers
  import opened Bytes
  import opened Collections
  import opened RunLength

  /** Longest period the search tries (`max_len=256`). */
  const MaxPatternLength: nat := 256

  /** Largest period tried on data of length n: `min(max_len, len(data) // 2)`. */
  function PeriodBound(n: nat): (b: nat)
    ensures b <= MaxPatternLength && 2 * b <= n
  {
    Min(MaxPatternLength, n / 2)
  }

  /** The data repeats its first k bytes: `data[i] == pattern[i % k]` for every i. */
  predicate IsPeriod(data: seq<byte>, k: nat)
  {
    1 <= k && forall i :: k <= i < |data| ==> data[i] == data[i % k]
  }

  /** The first period at or after `from` within the bound, if any. */
  function ShortestPeriodFrom(data: seq<byte>, from: nat): (r: Option<nat>)
    requires 1 <= from
    ensures r.Some? ==> from <= r.value <= PeriodBound(|data|) && IsPeriod(data, r.value)
    ensures r.Some? ==> forall k :: from <= k < r.value ==> !IsPeriod(data, k)
    ensures r.None? ==> forall k :: from <= k <= PeriodBound(|data|) ==> !IsPeriod(data, k)
    decreases PeriodBound(|data|) + 1 - from
  {
    if from > PeriodBound(|data|) then None
    else if IsPeriod(data, from) then Some(from)
    else ShortestPeriodFrom(data, from + 1)
  }

  /** The period `find_repeating_pattern` reports (its one dictionary key), if any. */
  function ShortestPeriod(data: seq<byte>): (r: Option<nat>)
    ensures r.Some? ==> 1 <= r.value <= PeriodBound(|data|) && IsPeriod(data, r.value)
    ensures r.Some? ==> forall k :: 1 <= k < r.value ==> !IsPeriod(data, k)
    ensures r.None? ==> forall k :: 1 <= k <= PeriodBound(|data|) ==> !IsPeriod(data, k)
  {
    ShortestPeriodFrom(data, 1)
  }

  /** Data shorter than two bytes has no period in range. */
  lemma ShortDataHasNoPeriod(data: seq<byte>)
    requires |data| < 2
    ensures ShortestPeriod(data) == None
  {
  }

  /** A period covering the data's first half fixes the whole of it by its first k bytes. */
  lemma PeriodDeterminesData(a: seq<byte>, b: seq<byte>, k: nat)
    requires |a| == |b| && k <= |a| && IsPeriod(a, k) && IsPeriod(b, k) && a[..k] == b[..k]
    ensures a == b
  {
    forall i | 0 <= i < |a|
      ensures a[i] == b[i]
    {
      if i >= k {
        assert a[i % k] == a[..k][i % k] == b[..k][i % k] == b[i % k];
      } else {
        assert a[i] == a[..k][i];
      }
    }
  }

  /** `find_repeating_pattern`: try each length from 1 up, comparing the data with its
      prefix of that length, and stop at the first that matches. */
  method FindRepeatingPattern(data: seq<byte>) returns (r: Option<nat>)
    ensures r == ShortestPeriod(data)
  {
    var bound := Min(MaxPatternLength, |data| / 2);
    var k := 1;
    while k <= bound
      invariant 1 <= k <= bound + 1
      invariant forall k' :: 1 <= k' < k ==> !IsPeriod(data, k')
    {
      var pattern := data[..k];
      var matches := true;
      var i := k;
      while i < |data|
        invariant k <= i <= |data|
        invariant forall j :: k <= j < i ==> data[j] == data[j % k]
      {
        if data[i] != pattern[i % k] {
          matches := false;
          break;
        }
        i := i + 1;
      }
      if matches {
        ShortestFromIs(data, k);
        return Some(k);
      }
      k := k + 1;
    }
    ShortestFromNone(data, 1);
    return None;
  }

  lemma ShortestFromIs(data: seq<byte>, k: nat)
    requires 1 <= k <= PeriodBound(|data|) && IsPeriod(data, k)
    requires forall k' :: 1 <= k' < k ==> !IsPeriod(data, k')
    ensures ShortestPeriod(data) == Some(k)
  {
  }

  lemma ShortestFromNone(data: seq<byte>, from: nat)
    requires 1 <= from
    requires forall k :: from <= k <= PeriodBound(|data|) ==> !IsPeriod(data, k)
    ensures ShortestPeriodFrom(data, from) == None
  {
  }

  /** A run worth reporting: longer than three bytes. */
  predicate IsLong(r: Run)
  {
    r.length > 3
  }

  /** How many long runs are kept (`runs[:10]`). */
  const MaxLongRuns: nat := 10

  /** The run loop of `analyze_xor_key`: close a run when the byte changes, keep the long
      ones, then keep the first ten. The loop reads `key[0]` first, so the key is non-empty. */
  method LongRuns(key: seq<byte>) returns (runs: seq<Run>)
    requires |key| >= 1
    ensures runs == Take(Filter(Runs(key), IsLong), MaxLongRuns)
  {
    ghost var closed: seq<Run> := [];
    var long: seq<Run> := [];
    var currentByte := key[0];
    var currentRun: nat := 1;
    assert key[..1] == [] + [key[0]];
    var i := 1;
    while i < |key|
      invariant 1 <= i <= |key| && currentRun >= 1
      invariant Runs(key[..i]) == closed + [Run(currentByte, currentRun)]
      invariant long == Filter(closed, IsLong)
    {
      var b := key[i];
      RunsOfSnoc(key, i, closed, Run(currentByte, currentRun));
      if b == currentByte {
        currentRun := currentRun + 1;
      } else {
        FilterSnoc(closed, Run(currentByte, currentRun));
        if currentRun > 3 {
          long := long + [Run(currentByte, currentRun)];
        }
        closed := closed + [Run(currentByte, currentRun)];
        currentByte := b;
        currentRun := 1;
      }
      i := i + 1;
    }
    FilterSnoc(closed, Run(currentByte, currentRun));
    if currentRun > 3 {
      long := long + [Run(currentByte, currentRun)];
    }
    assert key[..|key|] == key;
    runs := Take(long, MaxLongRuns);
  }

  lemma FilterSnoc(xs: seq<Run>, x: Run)
    ensures Filter(xs + [x], IsLong) == Filter(xs, IsLong) + (if IsLong(x) then [x] else [])
  {
    assert (xs + [x])[..|xs|] == xs;
  }

  /** Every reported run is a maximal run of the key, at most ten are reported, and they
      come in order of appearance. */
  lemma LongRunsAreRunsOfKey(key: seq<byte>)
    ensures var reported := Take(Filter(Runs(key), IsLong), MaxLongRuns);
            |reported| <= MaxLongRuns &&
            (forall r :: r in reported ==> r in Runs(key) && r.length >= 4) &&
            IsSubsequence(reported, Runs(key))
  {
    var kept := Filter(Runs(key), IsLong);
    var reported := Take(kept, MaxLongRuns);
    FilterIsSubsequence(Runs(key), IsLong);
    TakeIsSubsequence(kept, MaxLongRuns);
    SubsequenceTrans(reported, kept, Runs(key));
    forall r | r in reported
      ensures r in kept
    {
      var j :| 0 <= j < |reported| && reported[j] == r;
      assert kept[j] == r;
    }
  }

  /** `sum(1 for a, b in zip(x, y) if a == b)`. */
  function CountMatches(x: seq<byte>, y: seq<byte>): (n: nat)
    ensures n <= Min(|x|, |y|)
  {
    if x == [] || y == [] then 0
    else CountMatches(x[1..], y[1..]) + (if x[0] == y[0] then 1 else 0)
  }

  /** All bytes match exactly when the two sequences are equal. */
  lemma {:induction false} CountMatchesEqual(x: seq<byte>, y: seq<byte>)
    requires |x| == |y|
    ensures CountMatches(x, y) == |x| <==> x == y
  {
    if x != [] {
      CountMatchesEqual(x[1..], y[1..]);
      assert x == [x[0]] + x[1..] && y == [y[0]] + y[1..];
    }
  }

  /** `bytes(dcm[i] ^ pattern[i % len(pattern)] for i in range(len(dcm)))`. */
  function CycleDecrypt(dcm: seq<byte>, pattern: seq<byte>): (r: seq<byte>)
    requires |pattern| >= 1
    ensures |r| == |dcm| && forall i :: 0 <= i < |dcm| ==> r[i] == dcm[i] ^ pattern[i % |pattern|]
  {
    seq(|dcm|, i requires 0 <= i < |dcm| => dcm[i] ^ pattern[i % |pattern|])
  }

  /** `match_pct > 99.9` with `match_pct = matches / total * 100`, in integers. */
  predicate Succeeds(matches: nat, total: nat)
  {
    1000 * matches > 999 * total
  }

  /** A full match always succeeds; one miss in at most a thousand bytes never does. */
  lemma SucceedsBounds(matches: nat, total: nat)
    ensures total >= 1 && matches == total ==> Succeeds(matches, total)
    ensures total <= 1000 && matches < total ==> !Succeeds(matches, total)
  {
  }

  /** The outcome of the "Decryption Validation" step. */
  datatype Validation =
    | PatternCheck(matchCount: nat, success: bool, keyHex: Option<string>)
    | FullKeyCheck(matchCount: nat, fullKeyWorks: bool)

  /** Decrypt with a pattern and compare with the STL bytes. */
  function CheckPattern(dcm: seq<byte>, stl: seq<byte>, pattern: seq<byte>): (v: Validation)
    requires |pattern| >= 1
    ensures v.PatternCheck? && v.matchCount <= |stl|
    ensures v.keyHex.Some? <==> v.success
  {
    var m := CountMatches(CycleDecrypt(dcm, pattern), stl);
    var ok := Succeeds(m, |stl|);
    PatternCheck(m, ok, if ok then Some(Hex(pattern)) else None)
  }

  /** Decrypt with the full key and compare; a perfect match sets `full_key_works`. */
  function CheckFullKey(dcm: seq<byte>, stl: seq<byte>, key: seq<byte>): (v: Validation)
    requires |key| >= |dcm|
    ensures v.FullKeyCheck? && (v.fullKeyWorks <==> v.matchCount == |stl|)
  {
    var m := CountMatches(ZipXor(dcm, key), stl);
    FullKeyCheck(m, m == |stl|)
  }

  /** The validation as written: the pattern it decrypts with is the reported sample,
      `repeating[shortest][:64]`, not the period itself. */
  function ValidateAsWritten(dcm: seq<byte>, stl: seq<byte>, key: seq<byte>, period: Option<nat>): (v: Validation)
    requires |key| >= |dcm|
    requires period.Some? ==> 1 <= period.value <= |key|
    ensures v.PatternCheck? <==> period.Some?
  {
    match period
    case Some(k) => CheckPattern(dcm, stl, Take(key[..k], 64))
    case None => CheckFullKey(dcm, stl, key)
  }

  /** The validation with the whole period as the repeating key. */
  function Validate(dcm: seq<byte>, stl: seq<byte>, key: seq<byte>, period: Option<nat>): (v: Validation)
    requires |key| >= |dcm|
    requires period.Some? ==> 1 <= period.value <= |key|
    ensures v.PatternCheck? <==> period.Some?
  {
    match period
    case Some(k) => CheckPattern(dcm, stl, key[..k])
    case None => CheckFullKey(dcm, stl, key)
  }

  lemma XorCancel(a: byte, b: byte)
    ensures a ^ (a ^ b) == b
  {
  }

  /** Byte i of periodic data is the byte at i mod k of its first period. */
  lemma PeriodAt(data: seq<byte>, k: nat, i: nat)
    requires k <= |data| && IsPeriod(data, k) && i < |data|
    ensures i % k < k && data[..k][i % k] == data[i]
  {
    if i < k {
      assert i % k == i;
    }
  }

  /** Decrypting with any period of the derived key gives the STL bytes back. */
  lemma PeriodDecryptRestores(dcm: seq<byte>, stl: seq<byte>, k: nat)
    requires |dcm| == |stl| && k <= |dcm| && IsPeriod(ZipXor(dcm, stl), k)
    ensures CycleDecrypt(dcm, ZipXor(dcm, stl)[..k]) == stl
  {
    var key := ZipXor(dcm, stl);
    var plain := CycleDecrypt(dcm, key[..k]);
    forall i | 0 <= i < |dcm|
      ensures plain[i] == stl[i]
    {
      PeriodAt(key, k, i);
      XorCancel(dcm[i], stl[i]);
    }
  }

  /** With the key derived from the two payloads, decryption by its shortest period gives
      the STL bytes back and succeeds, and so does decryption by the full key. */
  lemma ValidateSucceeds(dcm: seq<byte>, stl: seq<byte>)
    requires |dcm| == |stl| >= 1
    ensures var key := ZipXor(dcm, stl);
            var v := Validate(dcm, stl, key, ShortestPeriod(key));
            v.matchCount == |stl| && (v.PatternCheck? ==> v.success) && (v.FullKeyCheck? ==> v.fullKeyWorks)
  {
    var key := ZipXor(dcm, stl);
    match ShortestPeriod(key)
    case Some(k) =>
      PeriodDecryptRestores(dcm, stl, k);
      CountMatchesEqual(stl, stl);
    case None =>
      ZipXorSelfInverse(dcm, stl);
      CountMatchesEqual(stl, stl);
  }

  /** A period of at most 64 bytes is reported whole, so the two validations agree. */
  lemma ShortPeriodValidationsAgree(dcm: seq<byte>, stl: seq<byte>, key: seq<byte>, period: Option<nat>)
    requires |key| >= |dcm|
    requires period.Some? ==> 1 <= period.value <= |key|
    requires period.Some? ==> period.value <= 64
    ensures ValidateAsWritten(dcm, stl, key, period) == Validate(dcm, stl, key, period)
  {
    if period.Some? {
      assert Take(key[..period.value], 64) == key[..period.value];
    }
  }

  /** The validation as written matches every byte and succeeds when the derived key has
      no period in range or one of at most 64 bytes. */
  lemma ValidateAsWrittenSucceeds(dcm: seq<byte>, stl: seq<byte>)
    requires |dcm| == |stl| >= 1
    requires var p := ShortestPeriod(ZipXor(dcm, stl)); p.None? || p.value <= 64
    ensures var key := ZipXor(dcm, stl);
            var v := ValidateAsWritten(dcm, stl, key, ShortestPeriod(key));
            v.matchCount == |stl| && (v.PatternCheck? ==> v.success) && (v.FullKeyCheck? ==> v.fullKeyWorks)
  {
    var key := ZipXor(dcm, stl);
    ShortPeriodValidationsAgree(dcm, stl, key, ShortestPeriod(key));
    ValidateSucceeds(dcm, stl);
  }

  /** The 130-byte key with a one at positions 0 and 65. */
  function Period65Key(): (key: seq<byte>)
    ensures |key| == 130
    ensures forall i :: 0 <= i < 130 ==> key[i] == if i % 65 == 0 then 1 else 0
  {
    seq(130, i => if i % 65 == 0 then 1 else 0)
  }

  /** Its shortest period is 65, the largest length tried on 130 bytes. */
  lemma Period65Shortest()
    ensures ShortestPeriod(Period65Key()) == Some(65)
  {
    var key := Period65Key();
    Period65IsPeriod();
    forall k | 1 <= k < 65
      ensures !IsPeriod(key, k)
    {
      assert k % k == 0 && k % 65 != 0;
      assert key[k] != key[k % k];
    }
    assert PeriodBound(130) == 65;
    ShortestFromIs(key, 65);
  }

  lemma Period65IsPeriod()
    ensures IsPeriod(Period65Key(), 65)
  {
    var key := Period65Key();
    forall i | 65 <= i < 130
      ensures key[i] == key[i % 65]
    {
      assert i % 65 == i - 65;
    }
  }

  /** XOR with an all-zero payload leaves the bytes alone. */
  lemma ZipXorZeros(x: seq<byte>)
    ensures ZipXor(x, seq(|x|, _ => 0 as byte)) == x
  {
    var z := seq(|x|, _ => 0 as byte);
    assert forall i :: 0 <= i < |x| ==> x[i] ^ z[i] == x[i];
  }

  /** With the DCM bytes equal to that key and an all-zero STL payload, the validation as
      written decrypts with the first 64 bytes of the period and rejects it, and the
      validation with the whole period accepts it. */
  lemma TruncatedPatternRejectsPeriod65()
    ensures var dcm := Period65Key();
            var stl := seq(130, _ => 0 as byte);
            var key := ZipXor(dcm, stl);
            ShortestPeriod(key) == Some(65) &&
            !ValidateAsWritten(dcm, stl, key, Some(65)).success &&
            Validate(dcm, stl, key, Some(65)).success
  {
    var dcm := Period65Key();
    var stl := seq(130, _ => 0 as byte);
    ZipXorZeros(dcm);
    Period65Shortest();
    var short := Take(dcm[..65], 64);
    var plain := CycleDecrypt(dcm, short);
    assert plain[64] == dcm[64] ^ dcm[0];
    assert plain[64] != stl[64];
    CountMatchesEqual(plain, stl);
    SucceedsBounds(CountMatches(plain, stl), 130);
    ValidateSucceeds(dcm, stl);
  }

  /** The first facts `analyze_xor_key` reports that the attack reads. */
  datatype KeyAnalysis = KeyAnalysis(
    length: nat,
    uniqueBytes: nat,
    patternLength: Option<nat>,
    patternSample: Option<seq<byte>>,
    longRuns: seq<Run>)

  /** Why the attack stops: the run loop reads `key[0]` of an empty key. */
  datatype AttackError = EmptyKey

  /** `analyze_xor_key` without the entropy, the byte ranking and the position samples. */
  method AnalyzeXorKey(key: seq<byte>) returns (r: Result<KeyAnalysis, AttackError>)
    ensures r.Err? <==> key == []
    ensures r.Ok? ==> r.value.length == |key| && r.value.uniqueBytes == |ToSet(key)|
    ensures r.Ok? ==> r.value.patternLength == ShortestPeriod(key)
    ensures r.Ok? ==> (r.value.patternSample.Some? <==> r.value.patternLength.Some?)
    ensures r.Ok? && r.value.patternLength.Some? ==>
              r.value.patternSample.value == Take(key[..r.value.patternLength.value], 64)
    ensures r.Ok? ==> r.value.longRuns == Take(Filter(Runs(key), IsLong), MaxLongRuns)
  {
    var unique := |ToSet(key)|;
    var period := FindRepeatingPattern(key);
    var sample: Option<seq<byte>> := None;
    if period.Some? {
      sample := Some(Take(key[..period.value], 64));
    }
    if |key| == 0 {
      return Err(EmptyKey);
    }
    var runs := LongRuns(key);
    return Ok(KeyAnalysis(|key|, unique, period, sample, runs));
  }
}
