/** Maximal runs of a repeated byte, and the stable ordering of runs by length that
    `sorted(runs, key=lambda x: -x[1])` produces. */
module RunLength {
  import opened Bytes
  import opened Collections

  /** A `(value, length)` pair as the run loops record it. */
  datatype Run = Run(value: byte, length: nat)

  /** `length` copies of a byte. */
  function Repeat(b: byte, length: nat): (r: seq<byte>)
    ensures |r| == length
    ensures forall i :: 0 <= i < length ==> r[i] == b
  {
    seq(length, _ => b)
  }

  /** The bytes a list of runs stands for. */
  function Expand(runs: seq<Run>): seq<byte>
  {
    if runs == [] then []
    else Expand(runs[..|runs| - 1]) + Repeat(runs[|runs| - 1].value, runs[|runs| - 1].length)
  }

  lemma ExpandSnoc(runs: seq<Run>, r: Run)
    ensures Expand(runs + [r]) == Expand(runs) + Repeat(r.value, r.length)
  {
    assert (runs + [r])[..|runs|] == runs;
  }

  /** Sum of the run lengths. */
  function TotalLength(runs: seq<Run>): nat
  {
    if runs == [] then 0 else TotalLength(runs[..|runs| - 1]) + runs[|runs| - 1].length
  }

  lemma {:induction false} ExpandLength(runs: seq<Run>)
    ensures |Expand(runs)| == TotalLength(runs)
  {
    if runs != [] {
      ExpandLength(runs[..|runs| - 1]);
    }
  }

  /** Every run is non-empty and neighbouring runs hold different bytes. */
  predicate Maximal(runs: seq<Run>)
  {
    (forall i :: 0 <= i < |runs| ==> runs[i].length >= 1) &&
    (forall i :: 0 <= i < |runs| - 1 ==> runs[i].value != runs[i + 1].value)
  }

  /** The maximal runs of s, in order of appearance. */
  function Runs(s: seq<byte>): (r: seq<Run>)
    ensures r == [] <==> s == []
  {
    if s == [] then [] else Extend(Runs(s[..|s| - 1]), s[|s| - 1])
  }

  /** The runs are maximal and stand for exactly the bytes they came from. */
  lemma {:induction false} RunsMaximal(s: seq<byte>)
    ensures Maximal(Runs(s)) && Expand(Runs(s)) == s
  {
    if s != [] {
      var front := s[..|s| - 1];
      RunsMaximal(front);
      RunsStep(Runs(front), s[|s| - 1]);
      assert s == front + [s[|s| - 1]];
    }
  }

  /** The runs after one more byte: the last run grows, or a new run of one opens. */
  function Extend(prev: seq<Run>, b: byte): seq<Run>
  {
    if prev != [] && prev[|prev| - 1].value == b then
      prev[..|prev| - 1] + [Run(b, prev[|prev| - 1].length + 1)]
    else
      prev + [Run(b, 1)]
  }

  /** Appending one byte either lengthens the last run or opens a new one. */
  lemma RunsStep(prev: seq<Run>, b: byte)
    requires Maximal(prev)
    ensures Maximal(Extend(prev, b)) && Expand(Extend(prev, b)) == Expand(prev) + [b]
  {
    if prev != [] && prev[|prev| - 1].value == b {
      LengthenLast(prev, b);
    } else {
      ExpandSnoc(prev, Run(b, 1));
      MaximalSnoc(prev, Run(b, 1));
    }
  }

  /** A byte equal to the last run's value lengthens that run by one. */
  lemma LengthenLast(prev: seq<Run>, b: byte)
    requires Maximal(prev) && prev != [] && prev[|prev| - 1].value == b
    ensures var r := prev[..|prev| - 1] + [Run(b, prev[|prev| - 1].length + 1)];
            Maximal(r) && Expand(r) == Expand(prev) + [b]
  {
    var last := prev[|prev| - 1];
    var init := prev[..|prev| - 1];
    var r := init + [Run(b, last.length + 1)];
    assert Expand(r) == Expand(prev) + [b] by {
      assert prev == init + [last];
      ExpandSnoc(init, last);
      ExpandSnoc(init, Run(b, last.length + 1));
      assert Repeat(b, last.length + 1) == Repeat(b, last.length) + [b];
    }
    assert forall i :: 0 <= i < |r| ==> r[i].value == prev[i].value && r[i].length >= 1;
    MaximalSameValues(prev, r);
  }

  /** Runs with the values of a maximal list, none empty, are maximal too. */
  lemma MaximalSameValues(prev: seq<Run>, r: seq<Run>)
    requires Maximal(prev) && |r| == |prev|
    requires forall i :: 0 <= i < |r| ==> r[i].value == prev[i].value && r[i].length >= 1
    ensures Maximal(r)
  {
    forall i | 0 <= i < |r| - 1
      ensures r[i].value != r[i + 1].value
    {
      assert r[i + 1].value == prev[i + 1].value;
    }
  }

  /** A non-empty run with a value other than the last run's extends a maximal list. */
  lemma MaximalSnoc(prev: seq<Run>, x: Run)
    requires Maximal(prev) && x.length >= 1
    requires prev != [] ==> prev[|prev| - 1].value != x.value
    ensures Maximal(prev + [x])
  {
    var r := prev + [x];
    assert forall i :: 0 <= i < |prev| ==> r[i] == prev[i];
  }

  /** The run lengths add up to the length of the data. */
  lemma RunsTotal(s: seq<byte>)
    ensures TotalLength(Runs(s)) == |s|
  {
    RunsMaximal(s);
    ExpandLength(Runs(s));
  }

  /** Runs is the only maximal decomposition: any list of non-empty runs with
      distinct neighbours that expands to s is Runs(s). */
  lemma {:induction false} RunsUnique(runs: seq<Run>, s: seq<byte>)
    requires Maximal(runs) && Expand(runs) == s
    ensures runs == Runs(s)
    decreases |s|
  {
    if runs != [] {
      var last := runs[|runs| - 1];
      if last.length == 1 {
        DropLast(runs);
        RunsUnique(runs[..|runs| - 1], s[..|s| - 1]);
      } else {
        var shorter := runs[..|runs| - 1] + [Run(last.value, last.length - 1)];
        ShortenLast(runs);
        RunsUnique(shorter, s[..|s| - 1]);
      }
    }
  }

  /** A last run of length one is the last byte on its own after the other runs. */
  lemma DropLast(runs: seq<Run>)
    requires Maximal(runs) && runs != [] && runs[|runs| - 1].length == 1
    ensures var s, init := Expand(runs), runs[..|runs| - 1];
            s != [] && Maximal(init) && Expand(init) == s[..|s| - 1] && Extend(init, s[|s| - 1]) == runs
  {
    var init := runs[..|runs| - 1];
    var last := runs[|runs| - 1];
    assert runs == init + [last];
    ExpandSnoc(init, last);
    assert Repeat(last.value, 1) == [last.value];
  }

  /** A longer last run is the last byte added to that run one shorter. */
  lemma ShortenLast(runs: seq<Run>)
    requires Maximal(runs) && runs != [] && runs[|runs| - 1].length > 1
    ensures var s, last := Expand(runs), runs[|runs| - 1];
            var shorter := runs[..|runs| - 1] + [Run(last.value, last.length - 1)];
            s != [] && Maximal(shorter) && Expand(shorter) == s[..|s| - 1] && Extend(shorter, s[|s| - 1]) == runs
  {
    var init := runs[..|runs| - 1];
    var last := runs[|runs| - 1];
    var shorter := init + [Run(last.value, last.length - 1)];
    assert Expand(runs) == Expand(shorter) + [last.value] by {
      assert runs == init + [last];
      ExpandSnoc(init, last);
      ExpandSnoc(init, Run(last.value, last.length - 1));
      assert Repeat(last.value, last.length) == Repeat(last.value, last.length - 1) + [last.value];
    }
    assert Maximal(shorter) by {
      assert forall i :: 0 <= i < |shorter| ==> shorter[i].value == runs[i].value && shorter[i].length >= 1;
      MaximalSameValues(runs, shorter);
    }
    var e := Expand(shorter);
    assert (e + [last.value])[..|e|] == e;
    assert Extend(shorter, last.value) == runs by {
      assert shorter[..|shorter| - 1] == init;
      assert runs == init + [last];
    }
  }


  /** Runs sorted by descending length. */
  predicate SortedByLength(runs: seq<Run>)
  {
    forall i, j :: 0 <= i < j < |runs| ==> runs[i].length >= runs[j].length
  }

  /** Where a run of the given length goes in a list sorted by descending length:
      after every strictly longer run, before the first run that is not longer. */
  function InsertPoint(sorted: seq<Run>, length: nat): (k: nat)
    ensures k <= |sorted|
    ensures forall j :: 0 <= j < k ==> sorted[j].length > length
    ensures k < |sorted| ==> sorted[k].length <= length
  {
    if sorted == [] || sorted[0].length <= length then 0
    else 1 + InsertPoint(sorted[1..], length)
  }

  function Insert(x: Run, sorted: seq<Run>): seq<Run>
  {
    var k := InsertPoint(sorted, x.length);
    sorted[..k] + [x] + sorted[k..]
  }

  /** Python's stable `sorted(runs, key=lambda x: -x[1])`, as an insertion sort. */
  function SortByLength(runs: seq<Run>): seq<Run>
  {
    if runs == [] then [] else Insert(runs[0], SortByLength(runs[1..]))
  }

  /** The runs of length L, in order: `[r for r in runs if r[1] == L]`. */
  function OfLength(runs: seq<Run>, L: nat): seq<Run>
  {
    if runs == [] then []
    else OfLength(runs[..|runs| - 1], L) + (if runs[|runs| - 1].length == L then [runs[|runs| - 1]] else [])
  }

  lemma {:induction false} OfLengthAppend(xs: seq<Run>, ys: seq<Run>, L: nat)
    ensures OfLength(xs + ys, L) == OfLength(xs, L) + OfLength(ys, L)
  {
    if ys != [] {
      assert (xs + ys)[..|xs + ys| - 1] == xs + ys[..|ys| - 1];
      OfLengthAppend(xs, ys[..|ys| - 1], L);
    } else {
      assert xs + ys == xs;
    }
  }

  lemma {:induction false} OfLengthNone(xs: seq<Run>, L: nat)
    requires forall i :: 0 <= i < |xs| ==> xs[i].length != L
    ensures OfLength(xs, L) == []
  {
    if xs != [] {
      OfLengthNone(xs[..|xs| - 1], L);
    }
  }

  lemma InsertSorted(x: Run, sorted: seq<Run>)
    requires SortedByLength(sorted)
    ensures SortedByLength(Insert(x, sorted))
    ensures multiset(Insert(x, sorted)) == multiset(sorted) + multiset{x}
  {
    var k := InsertPoint(sorted, x.length);
    var front, back := sorted[..k], sorted[k..];
    assert sorted == front + back;
    assert forall j :: 0 <= j < |back| ==> back[j].length <= x.length by {
      forall j | 0 <= j < |back|
        ensures back[j].length <= x.length
      {
        assert back[j] == sorted[k + j] && sorted[k].length >= sorted[k + j].length;
      }
    }
    InsertBetween(x, front, back);
    assert multiset(front + [x] + back) == multiset(front) + multiset{x} + multiset(back);
  }

  /** A run placed after the longer runs and before the others keeps the order. */
  lemma InsertBetween(x: Run, front: seq<Run>, back: seq<Run>)
    requires SortedByLength(front + back)
    requires forall i :: 0 <= i < |front| ==> front[i].length > x.length
    requires forall j :: 0 <= j < |back| ==> back[j].length <= x.length
    ensures SortedByLength(front + [x] + back)
  {
    var r := front + [x] + back;
    forall i, j | 0 <= i < j < |r|
      ensures r[i].length >= r[j].length
    {
      if j < |front| {
        assert r[i] == (front + back)[i] && r[j] == (front + back)[j];
      } else if j > |front| && i > |front| {
        assert r[i] == (front + back)[i - 1] && r[j] == (front + back)[j - 1];
      } else if j > |front| && i < |front| {
        assert r[i] == (front + back)[i] && r[j] == (front + back)[j - 1];
      } else if j > |front| {
        assert r[i] == x && r[j] == back[j - |front| - 1];
      } else {
        assert r[i] == front[i] && r[j] == x;
      }
    }
  }

  /** Insert puts x after the runs strictly longer than it. */
  lemma InsertSplit(x: Run, sorted: seq<Run>) returns (a: seq<Run>, b: seq<Run>)
    ensures sorted == a + b
    ensures Insert(x, sorted) == a + [x] + b
    ensures forall i :: 0 <= i < |a| ==> a[i].length > x.length
  {
    var k := InsertPoint(sorted, x.length);
    a, b := sorted[..k], sorted[k..];
    assert sorted == a + b;
  }

  lemma InsertStable(x: Run, sorted: seq<Run>, L: nat)
    ensures OfLength(Insert(x, sorted), L) == OfLength([x], L) + OfLength(sorted, L)
  {
    var a, b := InsertSplit(x, sorted);
    OfLengthMiddle(a, x, b, L);
  }

  /** Placing x after runs longer than it does not reorder the runs of any one length. */
  lemma OfLengthMiddle(a: seq<Run>, x: Run, b: seq<Run>, L: nat)
    requires forall i :: 0 <= i < |a| ==> a[i].length > x.length
    ensures OfLength(a + [x] + b, L) == OfLength([x], L) + OfLength(a + b, L)
  {
    OfLengthAppend(a + [x], b, L);
    OfLengthAppend(a, b, L);
    OfLengthSwap(a, x, L);
    var fa, fx, fb := OfLength(a, L), OfLength([x], L), OfLength(b, L);
    assert (fx + fa) + fb == fx + (fa + fb);
  }

  lemma OfLengthSwap(a: seq<Run>, x: Run, L: nat)
    requires forall i :: 0 <= i < |a| ==> a[i].length > x.length
    ensures OfLength(a + [x], L) == OfLength([x], L) + OfLength(a, L)
  {
    OfLengthAppend(a, [x], L);
    if L == x.length {
      OfLengthNone(a, L);
    } else {
      OfLengthNone([x], L);
    }
  }

  /** The sort orders by descending length and is a permutation. */
  lemma {:induction false} SortByLengthSorted(runs: seq<Run>)
    ensures SortedByLength(SortByLength(runs))
    ensures multiset(SortByLength(runs)) == multiset(runs)
  {
    if runs != [] {
      SortByLengthSorted(runs[1..]);
      InsertSorted(runs[0], SortByLength(runs[1..]));
      assert runs == [runs[0]] + runs[1..];
    }
  }

  /** The sort is stable: runs of equal length keep their original order. */
  lemma {:induction false} SortByLengthStable(runs: seq<Run>, L: nat)
    ensures OfLength(SortByLength(runs), L) == OfLength(runs, L)
  {
    if runs != [] {
      SortByLengthStable(runs[1..], L);
      SortByLengthSorted(runs[1..]);
      InsertStable(runs[0], SortByLength(runs[1..]), L);
      assert runs == [runs[0]] + runs[1..];
      OfLengthAppend([runs[0]], runs[1..], L);
    }
  }

  /** The n longest runs: no run left out is longer than a run kept. */
  lemma TopRunsAreLongest(runs: seq<Run>, n: nat)
    ensures multiset(Take(SortByLength(runs), n)) <= multiset(runs)
    ensures forall i, j :: 0 <= i < |Take(SortByLength(runs), n)| <= j < |SortByLength(runs)| ==>
              Take(SortByLength(runs), n)[i].length >= SortByLength(runs)[j].length
  {
    var sorted := SortByLength(runs);
    SortByLengthSorted(runs);
    var top := Take(sorted, n);
    assert sorted == top + sorted[|top|..];
  }

  /** The sort keeps the number of runs. */
  lemma SortByLengthSize(runs: seq<Run>)
    ensures |SortByLength(runs)| == |runs|
  {
    SortByLengthSorted(runs);
    assert |multiset(SortByLength(runs))| == |multiset(runs)|;
  }

  /** The n longest runs are themselves sorted by descending length. */
  lemma TopRunsSorted(runs: seq<Run>, n: nat)
    ensures SortedByLength(Take(SortByLength(runs), n))
  {
    SortByLengthSorted(runs);
  }

  /** The runs of one more byte, seen from the closed runs and the open one. */
  lemma RunsOfSnoc(s: seq<byte>, i: nat, closed: seq<Run>, open: Run)
    requires 1 <= i < |s|
    requires Runs(s[..i]) == closed + [open]
    ensures s[i] == open.value ==> Runs(s[..i + 1]) == closed + [Run(open.value, open.length + 1)]
    ensures s[i] != open.value ==> Runs(s[..i + 1]) == closed + [open] + [Run(s[i], 1)]
  {
    var t := s[..i + 1];
    assert t[..|t| - 1] == s[..i];
    assert Runs(t) == Extend(closed + [open], s[i]);
    var prev := closed + [open];
    assert prev[..|prev| - 1] == closed;
  }
}
