/** Pairing keys with values at their first occurrence, as the substitution-table and
    block-table scans do: a dict filled with `table[k] = v` only for unseen keys, and a
    later pair conflicting when its value differs from the stored one. */
module Pairing {
  import opened Collections
  import opened Canon

  /** Every key always meets the same value: the pairing is a function. */
  ghost predicate Functional<K(!new), V(!new)>(ks: seq<K>, vs: seq<V>)
    requires |ks| == |vs|
  {
    forall i, j :: 0 <= i < |ks| && 0 <= j < |ks| && ks[i] == ks[j] ==> vs[i] == vs[j]
  }

  /** The first occurrence of k in a prefix holding it is its first occurrence overall. */
  lemma IndexOfPrefix<K(!new)>(ks: seq<K>, n: nat, k: K)
    requires n <= |ks| && k in ks[..n]
    ensures k in ks
    ensures IndexOf(ks[..n], k) == IndexOf(ks, k)
  {
    var a := IndexOf(ks[..n], k);
    var b := IndexOf(ks, k);
    assert ks[a] == k;
    assert ks[..n][..a] == ks[..a];
    assert forall i :: 0 <= i < a ==> ks[i] != k;
    assert forall i :: 0 <= i < b ==> ks[i] != k;
  }

  /** The value stored for ks[j] by the time pair j is scanned. */
  function FirstPartner<K(==), V>(ks: seq<K>, vs: seq<V>, j: nat): V
    requires |ks| == |vs| && j < |ks|
  {
    vs[IndexOf(ks[..j + 1], ks[j])]
  }

  /** Pair j disagrees with the value stored for its key. */
  predicate ConflictAt<K(==), V(==)>(ks: seq<K>, vs: seq<V>, j: nat)
    requires |ks| == |vs| && j < |ks|
  {
    vs[j] != FirstPartner(ks, vs, j)
  }

  /** FirstPartner is the value at the key's first occurrence in the whole list. */
  lemma FirstPartnerGlobal<K(!new), V>(ks: seq<K>, vs: seq<V>, j: nat)
    requires |ks| == |vs| && j < |ks|
    ensures ks[j] in ks
    ensures FirstPartner(ks, vs, j) == vs[IndexOf(ks, ks[j])]
  {
    assert ks[..j + 1][j] == ks[j];
    IndexOfPrefix(ks, j + 1, ks[j]);
  }

  /** A scan finds no conflict exactly when the pairing is a function. */
  lemma NoConflictIffFunctional<K(!new), V(!new)>(ks: seq<K>, vs: seq<V>)
    requires |ks| == |vs|
    ensures (forall j :: 0 <= j < |ks| ==> !ConflictAt(ks, vs, j)) <==> Functional(ks, vs)
  {
    if forall j :: 0 <= j < |ks| ==> !ConflictAt(ks, vs, j) {
      forall i, j | 0 <= i < |ks| && 0 <= j < |ks| && ks[i] == ks[j]
        ensures vs[i] == vs[j]
      {
        assert !ConflictAt(ks, vs, i) && !ConflictAt(ks, vs, j);
        FirstPartnerGlobal(ks, vs, i);
        FirstPartnerGlobal(ks, vs, j);
      }
    }
    if Functional(ks, vs) {
      forall j | 0 <= j < |ks|
        ensures !ConflictAt(ks, vs, j)
      {
        FirstPartnerGlobal(ks, vs, j);
      }
    }
  }

  /** The table the scan builds: every key seen, with the value at its first occurrence. */
  function FirstTable<K(==,!new), V>(ks: seq<K>, vs: seq<V>): (m: map<K, V>)
    requires |ks| == |vs|
    ensures m.Keys == ToSet(ks)
  {
    map k | k in ks :: vs[IndexOf(ks, k)]
  }

  /** The table has one entry per distinct key. */
  lemma FirstTableSize<K(!new), V>(ks: seq<K>, vs: seq<V>)
    requires |ks| == |vs|
    ensures |FirstTable(ks, vs)| == |ToSet(ks)|
  {
    assert FirstTable(ks, vs).Keys == ToSet(ks);
  }

  /** Under a functional pairing the table maps every key to the value it meets. */
  lemma FirstTableFunctional<K(!new), V(!new)>(ks: seq<K>, vs: seq<V>)
    requires |ks| == |vs| && Functional(ks, vs)
    ensures forall i :: 0 <= i < |ks| ==> ks[i] in FirstTable(ks, vs) && FirstTable(ks, vs)[ks[i]] == vs[i]
  {
  }

  /** The conflicts a full scan records, in scan order: position, key, stored value, value met. */
  function Conflicts<K(==), V(==)>(ks: seq<K>, vs: seq<V>): seq<(nat, K, V, V)>
    requires |ks| == |vs|
  {
    if ks == [] then []
    else
      var n := |ks| - 1;
      Conflicts(ks[..n], vs[..n]) +
        (if ConflictAt(ks, vs, n) then [(n, ks[n], FirstPartner(ks, vs, n), vs[n])] else [])
  }

  /** Whether pair j conflicts does not depend on the pairs after it. */
  lemma ConflictAtPrefix<K(!new), V(!new)>(ks: seq<K>, vs: seq<V>, n: nat, j: nat)
    requires |ks| == |vs| && j < n <= |ks|
    ensures ConflictAt(ks[..n], vs[..n], j) == ConflictAt(ks, vs, j)
  {
    assert ks[..n][..j + 1] == ks[..j + 1];
  }

  /** Every recorded conflict is a real one, at a real position, with the stored value. */
  lemma {:induction false} ConflictsSound<K(!new), V(!new)>(ks: seq<K>, vs: seq<V>)
    requires |ks| == |vs|
    ensures forall c :: c in Conflicts(ks, vs) ==>
              c.0 < |ks| && ConflictAt(ks, vs, c.0) && c == (c.0, ks[c.0], FirstPartner(ks, vs, c.0), vs[c.0])
  {
    if ks != [] {
      var n := |ks| - 1;
      ConflictsSound(ks[..n], vs[..n]);
      forall c | c in Conflicts(ks[..n], vs[..n])
        ensures c.0 < |ks| && ConflictAt(ks, vs, c.0) && c == (c.0, ks[c.0], FirstPartner(ks, vs, c.0), vs[c.0])
      {
        ConflictAtPrefix(ks, vs, n, c.0);
        assert ks[..n + 1] == ks[..c.0 + 1] + ks[c.0 + 1..n + 1];
        assert ks[..n][..c.0 + 1] == ks[..c.0 + 1];
      }
    }
  }

  /** The scan records no conflict exactly when no pair conflicts. */
  lemma {:induction false} ConflictsEmpty<K(!new), V(!new)>(ks: seq<K>, vs: seq<V>)
    requires |ks| == |vs|
    ensures Conflicts(ks, vs) == [] <==> forall j :: 0 <= j < |ks| ==> !ConflictAt(ks, vs, j)
  {
    if ks != [] {
      var n := |ks| - 1;
      ConflictsEmpty(ks[..n], vs[..n]);
      forall j | 0 <= j < n
        ensures ConflictAt(ks[..n], vs[..n], j) == ConflictAt(ks, vs, j)
      {
        ConflictAtPrefix(ks, vs, n, j);
      }
    }
  }

  /** One step of the scan: an unseen key is stored with its value, a seen key leaves the
      table alone. */
  lemma ScanStepTable<K(!new), V(!new)>(ks: seq<K>, vs: seq<V>, i: nat)
    requires |ks| == |vs| && i < |ks|
    ensures var table := FirstTable(ks[..i], vs[..i]);
            FirstTable(ks[..i + 1], vs[..i + 1]) == (if ks[i] in table then table else table[ks[i] := vs[i]])
  {
    TablePrefixEntries(ks[..i + 1], vs[..i + 1], i);
    assert ks[..i + 1][..i] == ks[..i] && vs[..i + 1][..i] == vs[..i];
    TableKeysSnoc(ks, vs, i);
    if ks[i] !in ks[..i] {
      TableNewEntry(ks, vs, i);
    }
    MapSnoc(FirstTable(ks[..i], vs[..i]), FirstTable(ks[..i + 1], vs[..i + 1]), ks[i], vs[i]);
  }

  /** One more pair adds its key to the table's keys. */
  lemma TableKeysSnoc<K(!new), V>(ks: seq<K>, vs: seq<V>, i: nat)
    requires |ks| == |vs| && i < |ks|
    ensures FirstTable(ks[..i + 1], vs[..i + 1]).Keys == FirstTable(ks[..i], vs[..i]).Keys + {ks[i]}
  {
    assert ks[..i + 1] == ks[..i] + [ks[i]];
  }

  /** A key first met at position i is stored with the value met there. */
  lemma TableNewEntry<K(!new), V>(ks: seq<K>, vs: seq<V>, i: nat)
    requires |ks| == |vs| && i < |ks| && ks[i] !in ks[..i]
    ensures ks[i] in FirstTable(ks[..i + 1], vs[..i + 1])
    ensures FirstTable(ks[..i + 1], vs[..i + 1])[ks[i]] == vs[i]
  {
    assert ks[..i + 1][i] == ks[i];
    assert ks[..i + 1][..i] == ks[..i];
    assert IndexOf(ks[..i + 1], ks[i]) == i;
  }

  /** A map that extends another by at most one key k, agreeing on the old keys, is that
      map with k stored when k is new. */
  lemma MapSnoc<K, V>(m: map<K, V>, m': map<K, V>, k: K, v: V)
    requires m'.Keys == m.Keys + {k}
    requires forall x :: x in m ==> x in m' && m'[x] == m[x]
    requires k !in m ==> m'[k] == v
    ensures m' == if k in m then m else m[k := v]
  {
  }

  /** The table of a prefix agrees with the table of the whole list on the prefix's keys. */
  lemma TablePrefixEntries<K(!new), V(!new)>(ks: seq<K>, vs: seq<V>, n: nat)
    requires |ks| == |vs| && n <= |ks|
    ensures forall k :: k in FirstTable(ks[..n], vs[..n]) ==>
              k in FirstTable(ks, vs) && FirstTable(ks, vs)[k] == FirstTable(ks[..n], vs[..n])[k]
  {
    forall k | k in FirstTable(ks[..n], vs[..n])
      ensures k in FirstTable(ks, vs) && FirstTable(ks, vs)[k] == FirstTable(ks[..n], vs[..n])[k]
    {
      IndexOfPrefix(ks, n, k);
      assert vs[..n][IndexOf(ks, k)] == vs[IndexOf(ks, k)];
    }
  }

  /** A seen key conflicts exactly when its value differs from the stored one. */
  lemma ScanStepConflict<K(!new), V(!new)>(ks: seq<K>, vs: seq<V>, i: nat)
    requires |ks| == |vs| && i < |ks|
    ensures var table := FirstTable(ks[..i], vs[..i]);
            ConflictAt(ks[..i + 1], vs[..i + 1], i) <==> ks[i] in table && table[ks[i]] != vs[i]
    ensures var table := FirstTable(ks[..i], vs[..i]);
            ConflictAt(ks[..i + 1], vs[..i + 1], i) ==> FirstPartner(ks[..i + 1], vs[..i + 1], i) == table[ks[i]]
  {
    var ks', vs' := ks[..i + 1], vs[..i + 1];
    assert ks'[..i + 1] == ks';
    assert ks'[..i] == ks[..i];
    if ks[i] in ks[..i] {
      IndexOfPrefix(ks', i, ks[i]);
    } else {
      assert IndexOf(ks', ks[i]) == i;
    }
  }

  /** One step of a table-filling loop, stated on the table it holds: the pair conflicts
      exactly when its key is stored with another value, and the table grows only by an
      unseen key. */
  lemma ScanStep<K(!new), V(!new)>(ks: seq<K>, vs: seq<V>, i: nat, table: map<K, V>)
    requires |ks| == |vs| && i < |ks|
    requires table == FirstTable(ks[..i], vs[..i])
    ensures ConflictAt(ks, vs, i) <==> ks[i] in table && table[ks[i]] != vs[i]
    ensures ks[i] in table ==> FirstTable(ks[..i + 1], vs[..i + 1]) == table
    ensures ks[i] !in table ==> FirstTable(ks[..i + 1], vs[..i + 1]) == table[ks[i] := vs[i]]
  {
    ScanStepTable(ks, vs, i);
    ScanStepConflict(ks, vs, i);
    ConflictAtPrefix(ks, vs, i + 1, i);
  }

  /** The table after one more step of a table-filling loop. */
  lemma TableStep<K(!new), V(!new)>(ks: seq<K>, vs: seq<V>, i: nat, table: map<K, V>, next: map<K, V>)
    requires |ks| == |vs| && i < |ks|
    requires table == FirstTable(ks[..i], vs[..i])
    requires next == if ks[i] in table then table else table[ks[i] := vs[i]]
    ensures next == FirstTable(ks[..i + 1], vs[..i + 1])
  {
    ScanStepTable(ks, vs, i);
  }

  /** One step of the conflict list a table-filling loop records: a pair whose key is
      stored with another value is appended as `(i, key, stored, value)`. */
  lemma ConflictsSnoc<K(!new), V(!new)>(ks: seq<K>, vs: seq<V>, i: nat, table: map<K, V>, stored: V)
    requires |ks| == |vs| && i < |ks|
    requires table == FirstTable(ks[..i], vs[..i])
    requires ks[i] in table && table[ks[i]] == stored
    ensures stored != vs[i] ==>
              Conflicts(ks[..i + 1], vs[..i + 1]) == Conflicts(ks[..i], vs[..i]) + [(i, ks[i], stored, vs[i])]
    ensures stored == vs[i] ==> Conflicts(ks[..i + 1], vs[..i + 1]) == Conflicts(ks[..i], vs[..i])
  {
    ScanStepConflict(ks, vs, i);
    ConflictsPrefixSnoc(ks, vs, i);
  }

  /** The conflict list of one more pair, unfolded once. */
  lemma ConflictsPrefixSnoc<K(!new), V(!new)>(ks: seq<K>, vs: seq<V>, i: nat)
    requires |ks| == |vs| && i < |ks|
    ensures Conflicts(ks[..i + 1], vs[..i + 1]) == Conflicts(ks[..i], vs[..i]) +
              (if ConflictAt(ks[..i + 1], vs[..i + 1], i)
               then [(i, ks[i], FirstPartner(ks[..i + 1], vs[..i + 1], i), vs[i])] else [])
  {
    assert ks[..i + 1][..i] == ks[..i] && vs[..i + 1][..i] == vs[..i];
  }

  /** A pair whose key is not stored yet records no conflict. */
  lemma ConflictsFresh<K(!new), V(!new)>(ks: seq<K>, vs: seq<V>, i: nat, table: map<K, V>)
    requires |ks| == |vs| && i < |ks|
    requires table == FirstTable(ks[..i], vs[..i])
    requires ks[i] !in table
    ensures Conflicts(ks[..i + 1], vs[..i + 1]) == Conflicts(ks[..i], vs[..i])
  {
    ScanStepConflict(ks, vs, i);
    ConflictsPrefixSnoc(ks, vs, i);
  }

  /** Position of the first conflicting pair at or after `from`, or the length. */
  function FirstConflictFrom<K(==), V(==)>(ks: seq<K>, vs: seq<V>, from: nat): (r: nat)
    requires |ks| == |vs| && from <= |ks|
    ensures from <= r <= |ks|
    ensures forall j :: from <= j < r ==> !ConflictAt(ks, vs, j)
    ensures r < |ks| ==> ConflictAt(ks, vs, r)
    decreases |ks| - from
  {
    if from == |ks| then from
    else if ConflictAt(ks, vs, from) then from
    else FirstConflictFrom(ks, vs, from + 1)
  }

  /** Where a scan that stops at the first conflict stops. */
  function FirstConflict<K(==), V(==)>(ks: seq<K>, vs: seq<V>): (r: nat)
    requires |ks| == |vs|
    ensures r <= |ks|
    ensures forall j :: 0 <= j < r ==> !ConflictAt(ks, vs, j)
    ensures r < |ks| ==> ConflictAt(ks, vs, r)
  {
    FirstConflictFrom(ks, vs, 0)
  }

  /** The stopping point is determined by the conflicts alone. */
  lemma FirstConflictAt<K(!new), V(!new)>(ks: seq<K>, vs: seq<V>, t: nat)
    requires |ks| == |vs| && t <= |ks|
    requires forall j :: 0 <= j < t ==> !ConflictAt(ks, vs, j)
    requires t < |ks| ==> ConflictAt(ks, vs, t)
    ensures FirstConflict(ks, vs) == t
  {
  }
}
