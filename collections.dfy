/** Sequence helpers shared by the tools: sets of elements, filters and counts. */
module Collections {

  /** The set of elements of a list (Python's `set(xs)`). */
  function ToSet<T(==,!new)>(xs: seq<T>): (r: set<T>)
    ensures forall x :: x in r <==> x in xs
  {
    set x | x in xs
  }

  /** No element occurs twice. */
  predicate NoDup<T(==,!new)>(xs: seq<T>)
  {
    forall i, j :: 0 <= i < j < |xs| ==> xs[i] != xs[j]
  }

  lemma NoDupSnoc<T(!new)>(xs: seq<T>, x: T)
    ensures NoDup(xs + [x]) <==> NoDup(xs) && x !in xs
  {
    var ys := xs + [x];
    if NoDup(ys) {
      assert forall i :: 0 <= i < |xs| ==> xs[i] == ys[i] != ys[|xs|];
      assert forall i, j :: 0 <= i < j < |xs| ==> xs[i] == ys[i] && xs[j] == ys[j];
    }
  }

  /** Element i repeats an earlier element. */
  predicate RepeatAt<T(==,!new)>(xs: seq<T>, i: nat)
    requires i < |xs|
  {
    xs[i] in xs[..i]
  }

  lemma ToSetSnoc<T(!new)>(xs: seq<T>, x: T)
    ensures ToSet(xs + [x]) == ToSet(xs) + {x}
  {
  }

  /** A list has at least as many entries as distinct elements. */
  lemma {:induction false} CardToSet<T(!new)>(xs: seq<T>)
    ensures |ToSet(xs)| <= |xs|
  {
    if xs != [] {
      var front := xs[..|xs| - 1];
      assert xs == front + [xs[|xs| - 1]];
      ToSetSnoc(front, xs[|xs| - 1]);
      CardToSet(front);
    }
  }

  /** A duplicate-free list has exactly as many distinct elements as entries. */
  lemma {:induction false} CardToSetNoDup<T(!new)>(xs: seq<T>)
    requires NoDup(xs)
    ensures |ToSet(xs)| == |xs|
  {
    if xs != [] {
      var front := xs[..|xs| - 1];
      var last := xs[|xs| - 1];
      assert xs == front + [last];
      ToSetSnoc(front, last);
      assert forall i :: 0 <= i < |front| ==> front[i] == xs[i] != xs[|xs| - 1];
      CardToSetNoDup(front);
    }
  }

  /** A list has as many distinct elements as entries exactly when none repeats. */
  lemma CardToSetIffNoDup<T(!new)>(xs: seq<T>)
    ensures |ToSet(xs)| == |xs| <==> NoDup(xs)
  {
    if NoDup(xs) {
      CardToSetNoDup(xs);
    } else {
      var i, j :| 0 <= i < j < |xs| && xs[i] == xs[j];
      var ys := xs[..j] + xs[j + 1..];
      assert xs == xs[..j] + [xs[j]] + xs[j + 1..];
      assert xs[j] == ys[i];
      assert ToSet(xs) == ToSet(ys);
      CardToSet(ys);
    }
  }

  /** A subset is no larger than its superset. */
  lemma {:induction false} SubsetCard<T>(a: set<T>, b: set<T>)
    requires a <= b
    ensures |a| <= |b|
    decreases |a|
  {
    if a != {} {
      var x :| x in a;
      SubsetCard(a - {x}, b - {x});
    }
  }

  /** Python's comprehension `[x for x in xs if p(x)]`. */
  function Filter<T(==,!new)>(xs: seq<T>, p: T -> bool): (r: seq<T>)
    ensures |r| <= |xs|
    ensures forall x :: x in r <==> x in xs && p(x)
  {
    if xs == [] then []
    else
      var front := Filter(xs[..|xs| - 1], p);
      assert forall x :: x in xs <==> x in xs[..|xs| - 1] || x == xs[|xs| - 1];
      if p(xs[|xs| - 1]) then front + [xs[|xs| - 1]] else front
  }

  lemma {:induction false} FilterNone<T(!new)>(xs: seq<T>, p: T -> bool)
    requires forall i :: 0 <= i < |xs| ==> !p(xs[i])
    ensures Filter(xs, p) == []
  {
    if xs != [] {
      FilterNone(xs[..|xs| - 1], p);
    }
  }

  lemma {:induction false} FilterAppend<T(!new)>(xs: seq<T>, ys: seq<T>, p: T -> bool)
    ensures Filter(xs + ys, p) == Filter(xs, p) + Filter(ys, p)
  {
    if ys != [] {
      assert (xs + ys)[..|xs + ys| - 1] == xs + ys[..|ys| - 1];
      FilterAppend(xs, ys[..|ys| - 1], p);
    } else {
      assert xs + ys == xs;
    }
  }

  /** Number of entries satisfying p (`sum(1 for x in xs if p(x))`). */
  function CountWhere<T(==,!new)>(xs: seq<T>, p: T -> bool): (n: nat)
    ensures n <= |xs|
    ensures n == |Filter(xs, p)|
  {
    if xs == [] then 0
    else CountWhere(xs[..|xs| - 1], p) + (if p(xs[|xs| - 1]) then 1 else 0)
  }

  /** Python's `xs[:n]` for n >= 0. */
  function Take<T(==,!new)>(xs: seq<T>, n: nat): (r: seq<T>)
    ensures |r| == if n <= |xs| then n else |xs|
    ensures r == xs[..|r|]
  {
    if n <= |xs| then xs[..n] else xs
  }

  /** Subsequence: ys is xs with some entries dropped, order kept. */
  predicate IsSubsequence<T(==,!new)>(ys: seq<T>, xs: seq<T>)
    decreases |xs|
  {
    if ys == [] then true
    else if xs == [] then false
    else if ys[|ys| - 1] == xs[|xs| - 1] then IsSubsequence(ys[..|ys| - 1], xs[..|xs| - 1])
    else IsSubsequence(ys, xs[..|xs| - 1])
  }

  /** A filter keeps the order of its input. */
  lemma {:induction false} FilterIsSubsequence<T(!new)>(xs: seq<T>, p: T -> bool)
    ensures IsSubsequence(Filter(xs, p), xs)
  {
    if xs != [] {
      var front := xs[..|xs| - 1];
      FilterIsSubsequence(front, p);
      if !p(xs[|xs| - 1]) {
        SubsequenceOfSnoc(Filter(front, p), front, xs[|xs| - 1]);
      }
    }
  }

  lemma {:induction false} SubsequenceOfSnoc<T(!new)>(ys: seq<T>, xs: seq<T>, x: T)
    requires IsSubsequence(ys, xs)
    ensures IsSubsequence(ys, xs + [x])
    decreases |xs|, 1
  {
    var xx := xs + [x];
    assert xx[..|xx| - 1] == xs;
    if ys != [] && ys[|ys| - 1] == x {
      var yf := ys[..|ys| - 1];
      SubsequenceDropLast(ys, xs);
    }
  }

  lemma {:induction false} SubsequenceDropLast<T(!new)>(ys: seq<T>, xs: seq<T>)
    requires ys != []
    requires IsSubsequence(ys, xs)
    ensures IsSubsequence(ys[..|ys| - 1], xs)
    decreases |xs|, 0
  {
    assert xs != [];
    var xf := xs[..|xs| - 1];
    var yf := ys[..|ys| - 1];
    if ys[|ys| - 1] == xs[|xs| - 1] {
      SubsequenceOfSnoc(yf, xf, xs[|xs| - 1]);
      assert xf + [xs[|xs| - 1]] == xs;
    } else {
      SubsequenceDropLast(ys, xf);
      SubsequenceOfSnoc(yf, xf, xs[|xs| - 1]);
      assert xf + [xs[|xs| - 1]] == xs;
    }
  }

  /** A prefix is a subsequence. */
  lemma {:induction false} TakeIsSubsequence<T(!new)>(xs: seq<T>, n: nat)
    ensures IsSubsequence(Take(xs, n), xs)
    decreases |xs|
  {
    if n < |xs| {
      var front := xs[..|xs| - 1];
      TakeIsSubsequence(front, n);
      assert Take(front, n) == Take(xs, n);
      SubsequenceOfSnoc(Take(xs, n), front, xs[|xs| - 1]);
      assert front + [xs[|xs| - 1]] == xs;
    } else {
      assert Take(xs, n) == xs;
      SubsequenceRefl(xs);
    }
  }

  lemma {:induction false} SubsequenceRefl<T(!new)>(xs: seq<T>)
    ensures IsSubsequence(xs, xs)
    decreases |xs|
  {
    if xs != [] {
      SubsequenceRefl(xs[..|xs| - 1]);
    }
  }

  /** Being a subsequence is transitive. */
  lemma {:induction false} SubsequenceTrans<T(!new)>(a: seq<T>, b: seq<T>, c: seq<T>)
    requires IsSubsequence(a, b) && IsSubsequence(b, c)
    ensures IsSubsequence(a, c)
    decreases |c|
  {
    if a != [] {
      assert b != [] && c != [];
      var cf := c[..|c| - 1];
      var bf := b[..|b| - 1];
      assert cf + [c[|c| - 1]] == c;
      if b[|b| - 1] == c[|c| - 1] {
        if a[|a| - 1] == b[|b| - 1] {
          SubsequenceTrans(a[..|a| - 1], bf, cf);
        } else {
          SubsequenceTrans(a, bf, cf);
          SubsequenceOfSnoc(a, cf, c[|c| - 1]);
        }
      } else {
        SubsequenceTrans(a, b, cf);
        SubsequenceOfSnoc(a, cf, c[|c| - 1]);
      }
    }
  }

  lemma AppendSliceSnoc<T>(a: seq<T>, b: seq<T>, j: nat)
    requires j < |b|
    ensures a + b[..j + 1] == (a + b[..j]) + [b[j]]
  {
    assert b[..j + 1] == b[..j] + [b[j]];
  }

  /** A list has exactly one distinct element when it is non-empty and constant. */
  lemma SingleValue<T(!new)>(xs: seq<T>)
    ensures |ToSet(xs)| == 1 <==> xs != [] && forall i :: 0 <= i < |xs| ==> xs[i] == xs[0]
  {
    if xs != [] && forall i :: 0 <= i < |xs| ==> xs[i] == xs[0] {
      assert ToSet(xs) == {xs[0]};
    }
    if |ToSet(xs)| == 1 {
      assert xs != [];
      var rest := ToSet(xs) - {xs[0]};
      assert |rest| == 0;
      assert forall i :: 0 <= i < |xs| ==> xs[i] !in rest;
    }
  }

  /** Filtering a two-element list. */
  lemma FilterPair<T(!new)>(a: T, b: T, p: T -> bool)
    ensures Filter([a, b], p) == (if p(a) then [a] else []) + (if p(b) then [b] else [])
  {
    assert [a, b][..1] == [a];
    assert [a][..0] == [];
  }

  /** Extending the filtered prefix by one entry. */
  lemma FilterPrefixSnoc<T(!new)>(xs: seq<T>, j: nat, p: T -> bool)
    requires j < |xs|
    ensures Filter(xs[..j + 1], p) == Filter(xs[..j], p) + (if p(xs[j]) then [xs[j]] else [])
  {
    assert xs[..j + 1][..j] == xs[..j];
  }

  /** The multiset of a prefix grows by one element per step. */
  lemma MultisetPrefixSnoc<T>(xs: seq<T>, i: nat)
    requires i < |xs|
    ensures multiset(xs[..i + 1]) == multiset(xs[..i]) + multiset{xs[i]}
  {
    assert xs[..i + 1] == xs[..i] + [xs[i]];
  }

  /** Membership in either part is membership in the concatenation. */
  lemma InAppend<T>(xs: seq<T>, ys: seq<T>, x: T)
    ensures x in xs + ys <==> x in xs || x in ys
  {
  }
}
