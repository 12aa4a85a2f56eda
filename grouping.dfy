/** Grouping and duplicate detection over lists of records: the `defaultdict(list)`
    and `Counter` idioms of the batch analyser. */
module Grouping {
  import opened Collections
  import opened Canon

  /** The values of the items whose key is k, in list order. */
  function Group<T, K(==), V>(xs: seq<T>, key: T -> K, val: T -> V, k: K): (r: seq<V>)
    ensures |r| <= |xs|
  {
    if xs == [] then []
    else Group(xs[..|xs| - 1], key, val, k) + (if key(xs[|xs| - 1]) == k then [val(xs[|xs| - 1])] else [])
  }

  /** Every item lands in the group of its own key, and a group holds only values of
      items with that key. */
  lemma {:induction false} GroupMembers<T, K(!new), V(!new)>(xs: seq<T>, key: T -> K, val: T -> V, k: K)
    ensures forall i :: 0 <= i < |xs| && key(xs[i]) == k ==> val(xs[i]) in Group(xs, key, val, k)
    ensures forall v :: v in Group(xs, key, val, k) ==>
              exists i :: 0 <= i < |xs| && key(xs[i]) == k && val(xs[i]) == v
  {
    if xs != [] {
      var front := xs[..|xs| - 1];
      GroupMembers(front, key, val, k);
      assert forall i :: 0 <= i < |front| ==> front[i] == xs[i];
    }
  }

  /** A key has a non-empty group exactly when some item carries it. */
  lemma {:induction false} GroupNonEmpty<T, K(!new), V>(xs: seq<T>, key: T -> K, val: T -> V, k: K)
    ensures Group(xs, key, val, k) != [] <==> k in Keys(xs, key)
  {
    if xs != [] {
      var front := xs[..|xs| - 1];
      GroupNonEmpty(front, key, val, k);
      KeysPrefix(xs, key, |xs| - 1);
      assert Keys(xs, key) == Keys(front, key) + [key(xs[|xs| - 1])];
    }
  }

  lemma GroupSnoc<T, K(!new), V>(xs: seq<T>, i: nat, key: T -> K, val: T -> V)
    requires i < |xs|
    ensures forall k :: Group(xs[..i + 1], key, val, k) ==
                        Group(xs[..i], key, val, k) + (if key(xs[i]) == k then [val(xs[i])] else [])
  {
    assert xs[..i + 1][..i] == xs[..i];
  }

  /** The `defaultdict(list)` loop: append each item's value to the list of its key.
      `order` is the dictionary's key order, first appearance first. */
  method GroupBy<T, K(==,!new), V>(xs: seq<T>, key: T -> K, val: T -> V) returns (groups: map<K, seq<V>>, order: seq<K>)
    ensures groups.Keys == ToSet(Keys(xs, key))
    ensures NoDup(order) && ToSet(order) == groups.Keys
    ensures forall k :: k in groups ==> groups[k] == Group(xs, key, val, k)
  {
    groups, order := map[], [];
    for i := 0 to |xs|
      invariant groups.Keys == ToSet(Keys(xs[..i], key))
      invariant NoDup(order) && ToSet(order) == groups.Keys
      invariant forall k :: k in groups ==> groups[k] == Group(xs[..i], key, val, k)
    {
      var k := key(xs[i]);
      GroupSnoc(xs, i, key, val);
      KeysPrefix(xs, key, i + 1);
      KeysPrefix(xs, key, i);
      assert Keys(xs, key)[..i + 1] == Keys(xs, key)[..i] + [k];
      ToSetSnoc(Keys(xs[..i], key), k);
      if k in groups {
        groups := groups[k := groups[k] + [val(xs[i])]];
      } else {
        GroupNonEmpty(xs[..i], key, val, k);
        NoDupSnoc(order, k);
        ToSetSnoc(order, k);
        groups := groups[k := [val(xs[i])]];
        order := order + [k];
      }
    }
    assert xs[..|xs|] == xs;
  }

  /** The group of k holds more than one distinct value. */
  predicate Mixed<K(==), V(==,!new)>(groups: map<K, seq<V>>, k: K)
  {
    k in groups && |ToSet(groups[k])| > 1
  }

  /** How many keys of `order` have mixed groups. */
  function CountMixed<K(==), V(==,!new)>(groups: map<K, seq<V>>, order: seq<K>): (n: nat)
    ensures n <= |order|
    ensures n == 0 <==> forall j :: 0 <= j < |order| ==> !Mixed(groups, order[j])
  {
    if order == [] then 0
    else CountMixed(groups, order[..|order| - 1]) + (if Mixed(groups, order[|order| - 1]) then 1 else 0)
  }

  /** The counting loop over the groups. */
  method CountMixedGroups<K(==), V(==,!new)>(groups: map<K, seq<V>>, order: seq<K>) returns (count: nat)
    ensures count == CountMixed(groups, order)
  {
    count := 0;
    for j := 0 to |order|
      invariant count == CountMixed(groups, order[..j])
    {
      assert order[..j + 1][..j] == order[..j];
      if order[j] in groups && |ToSet(groups[order[j]])| > 1 {
        count := count + 1;
      }
    }
    assert order[..|order|] == order;
  }

  /** A list whose elements are all equal has at most one distinct element. */
  lemma SingleOrEmpty<V(!new)>(vs: seq<V>)
    requires forall i :: 0 <= i < |vs| ==> vs[i] == vs[0]
    ensures |ToSet(vs)| <= 1
  {
    if vs != [] {
      assert ToSet(vs) == {vs[0]};
    }
  }

  /** Two distinct elements make at least two distinct values. */
  lemma TwoDistinct<V(!new)>(vs: seq<V>, a: V, b: V)
    requires a in vs && b in vs && a != b
    ensures |ToSet(vs)| > 1
  {
    var rest := ToSet(vs) - {a};
    assert b in rest;
    assert ToSet(vs) == rest + {a};
  }

  /** The facts GroupBy establishes about its result. */
  ghost predicate GroupsOf<T, K(!new), V>(xs: seq<T>, key: T -> K, val: T -> V, groups: map<K, seq<V>>, order: seq<K>)
  {
    && groups.Keys == ToSet(Keys(xs, key))
    && ToSet(order) == groups.Keys
    && forall k :: k in groups ==> groups[k] == Group(xs, key, val, k)
  }

  /** Items with the same key have the same value. */
  ghost predicate KeyDeterminesValue<T, K(!new), V(!new)>(xs: seq<T>, key: T -> K, val: T -> V)
  {
    forall i, j :: 0 <= i < |xs| && 0 <= j < |xs| && key(xs[i]) == key(xs[j]) ==> val(xs[i]) == val(xs[j])
  }

  lemma NoMixedDetermines<T, K(!new), V(!new)>(xs: seq<T>, key: T -> K, val: T -> V,
                                               groups: map<K, seq<V>>, order: seq<K>)
    requires GroupsOf(xs, key, val, groups, order)
    requires CountMixed(groups, order) == 0
    ensures KeyDeterminesValue(xs, key, val)
  {
    forall i, j | 0 <= i < |xs| && 0 <= j < |xs| && key(xs[i]) == key(xs[j])
      ensures val(xs[i]) == val(xs[j])
    {
      var k := key(xs[i]);
      assert Keys(xs, key)[i] == k;
      assert k in order;
      var m :| 0 <= m < |order| && order[m] == k;
      assert !Mixed(groups, order[m]);
      GroupMembers(xs, key, val, k);
      if val(xs[i]) != val(xs[j]) {
        TwoDistinct(groups[k], val(xs[i]), val(xs[j]));
        assert false;
      }
    }
  }

  lemma MixedWitness<T, K(!new), V(!new)>(xs: seq<T>, key: T -> K, val: T -> V,
                                          groups: map<K, seq<V>>, order: seq<K>)
    requires GroupsOf(xs, key, val, groups, order)
    requires CountMixed(groups, order) != 0
    ensures !KeyDeterminesValue(xs, key, val)
  {
    var m :| 0 <= m < |order| && Mixed(groups, order[m]);
    var k := order[m];
    var g := groups[k];
    if forall i :: 0 <= i < |g| ==> g[i] == g[0] {
      SingleOrEmpty(g);
      assert false;
    }
    var a :| 0 <= a < |g| && g[a] != g[0];
    GroupMembers(xs, key, val, k);
    assert g[a] in g && g[0] in g;
    var i :| 0 <= i < |xs| && key(xs[i]) == k && val(xs[i]) == g[a];
    var j :| 0 <= j < |xs| && key(xs[j]) == k && val(xs[j]) == g[0];
    assert key(xs[i]) == key(xs[j]) && val(xs[i]) != val(xs[j]);
  }

  /** No group is mixed exactly when items with the same key always have the same value. */
  lemma NoMixedIffKeyDeterminesValue<T, K(!new), V(!new)>(xs: seq<T>, key: T -> K, val: T -> V,
                                                          groups: map<K, seq<V>>, order: seq<K>)
    requires GroupsOf(xs, key, val, groups, order)
    ensures CountMixed(groups, order) == 0 <==> KeyDeterminesValue(xs, key, val)
  {
    if CountMixed(groups, order) == 0 {
      NoMixedDetermines(xs, key, val, groups, order);
    } else {
      MixedWitness(xs, key, val, groups, order);
    }
  }

  /** The distinct elements in order of first appearance (a `Counter`'s key order). */
  function Distinct<T(==,!new)>(xs: seq<T>): (r: seq<T>)
    ensures forall x :: x in r <==> x in xs
    ensures NoDup(r)
  {
    if xs == [] then []
    else
      var front := Distinct(xs[..|xs| - 1]);
      var last := xs[|xs| - 1];
      assert forall x :: x in xs <==> x in xs[..|xs| - 1] || x == last;
      NoDupSnoc(front, last);
      if last in front then front else front + [last]
  }

  /** The `(value, count)` pairs of the given values that occur more than once in xs. */
  function RepeatedAmong<T(==,!new)>(ds: seq<T>, xs: seq<T>): (r: seq<(T, nat)>)
    ensures forall e :: e in r ==> e.0 in ds && e.1 == multiset(xs)[e.0] && e.1 > 1
    ensures forall h :: h in ds && multiset(xs)[h] > 1 ==> (h, multiset(xs)[h]) in r
    ensures NoDup(ds) ==> forall i, j :: 0 <= i < j < |r| ==> r[i].0 != r[j].0
  {
    if ds == [] then []
    else
      var h := ds[|ds| - 1];
      var front := RepeatedAmong(ds[..|ds| - 1], xs);
      assert forall x :: x in ds <==> x in ds[..|ds| - 1] || x == h;
      assert ds == ds[..|ds| - 1] + [h];
      NoDupSnoc(ds[..|ds| - 1], h);
      assert forall i :: 0 <= i < |front| ==> front[i] in front;
      front + (if multiset(xs)[h] > 1 then [(h, multiset(xs)[h])] else [])
  }

  /** `[(h, c) for h, c in Counter(xs).items() if c > 1]`. */
  function Duplicates<T(==,!new)>(xs: seq<T>): (r: seq<(T, nat)>)
    ensures forall e :: e in r ==> e.0 in xs && e.1 == multiset(xs)[e.0] && e.1 > 1
    ensures forall h :: multiset(xs)[h] > 1 ==> (h, multiset(xs)[h]) in r
    ensures forall i, j :: 0 <= i < j < |r| ==> r[i].0 != r[j].0
  {
    RepeatedAmong(Distinct(xs), xs)
  }

  /** One entry per distinct repeated element: `len([c for c, n in counter.items() if n > 1])`. */
  lemma DuplicatesCount<T(!new)>(xs: seq<T>)
    ensures |Duplicates(xs)| == |set h | h in xs && multiset(xs)[h] > 1|
  {
    var r := Duplicates(xs);
    var ks := seq(|r|, i requires 0 <= i < |r| => r[i].0);
    assert NoDup(ks);
    CardToSetNoDup(ks);
    forall h | h in xs && multiset(xs)[h] > 1
      ensures h in ToSet(ks)
    {
      var i :| 0 <= i < |r| && r[i] == (h, multiset(xs)[h]);
      assert ks[i] == h;
    }
    forall h | h in ToSet(ks)
      ensures h in xs && multiset(xs)[h] > 1
    {
      var i :| 0 <= i < |ks| && ks[i] == h;
      assert r[i] in r;
    }
    assert ToSet(ks) == set h | h in xs && multiset(xs)[h] > 1;
  }

  /** An element occurring twice has a count above one. */
  lemma RepeatCount<T>(xs: seq<T>, i: nat, j: nat)
    requires i < j < |xs| && xs[i] == xs[j]
    ensures multiset(xs)[xs[i]] > 1
  {
    assert xs == xs[..j] + [xs[j]] + xs[j + 1..];
    assert xs[i] in multiset(xs[..j]);
  }

  /** A duplicate-free list counts every element once. */
  lemma {:induction false} NoDupCounts<T(!new)>(xs: seq<T>)
    requires NoDup(xs)
    ensures forall h :: multiset(xs)[h] <= 1
  {
    if xs != [] {
      var front := xs[..|xs| - 1];
      assert xs == front + [xs[|xs| - 1]];
      NoDupSnoc(front, xs[|xs| - 1]);
      NoDupCounts(front);
    }
  }

  /** Without a repeated value nothing is reported. */
  lemma {:induction false} NoRepeatsNoneReported<T(!new)>(ds: seq<T>, xs: seq<T>)
    requires forall h :: multiset(xs)[h] <= 1
    ensures RepeatedAmong(ds, xs) == []
  {
    if ds != [] {
      NoRepeatsNoneReported(ds[..|ds| - 1], xs);
    }
  }

  /** There are no duplicates exactly when no element repeats. */
  lemma DuplicatesEmpty<T(!new)>(xs: seq<T>)
    ensures Duplicates(xs) == [] <==> NoDup(xs)
  {
    if NoDup(xs) {
      NoDupCounts(xs);
      NoRepeatsNoneReported(Distinct(xs), xs);
    } else {
      var i, j :| 0 <= i < j < |xs| && xs[i] == xs[j];
      RepeatCount(xs, i, j);
      assert (xs[i], multiset(xs)[xs[i]]) in Duplicates(xs);
    }
  }
}
