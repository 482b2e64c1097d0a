/**
 * A JavaScript `Map`: a dictionary that remembers the order in which its keys
 * were first inserted. It is modelled by that order (a sequence of distinct
 * keys) beside a Dafny `map` with exactly those keys.
 */
module OrderedMaps {
  import opened Seqs

  /** The insertion order lists every key of the map exactly once. */
  predicate WellFormed<K(!new), V>(order: seq<K>, m: map<K, V>)
  {
    Distinct(order) && (forall k :: k in m ==> k in order) && (forall k :: k in order ==> k in m)
  }

  /** The order after `m.set(key, v)`: an existing key keeps its place, a new one goes last. */
  function Inserted<K(==,!new)>(order: seq<K>, key: K): (r: seq<K>)
    ensures key in r
    ensures forall k :: k in r <==> k in order || k == key
    ensures |r| == |order| + (if key in order then 0 else 1) && r[..|order|] == order
  {
    if key in order then order else order + [key]
  }

  lemma InsertedWellFormed<K(!new), V>(order: seq<K>, m: map<K, V>, key: K, v: V)
    requires WellFormed(order, m)
    ensures WellFormed(Inserted(order, key), m[key := v])
  {
  }

  /** `Array.from(m.entries())`: the entries in insertion order. */
  function Entries<K(!new), V>(order: seq<K>, m: map<K, V>): (es: seq<(K, V)>)
    requires forall k :: k in order ==> k in m
    ensures |es| == |order|
    ensures forall i :: 0 <= i < |order| ==> es[i] == (order[i], m[order[i]])
  {
    seq(|order|, i requires 0 <= i < |order| => (order[i], m[order[i]]))
  }

  /** The insertion order of `new Map(entries)`: each entry's key, where it was first set. */
  function OrderOf<K(==,!new), V>(es: seq<(K, V)>): seq<K>
  {
    if |es| == 0 then [] else Inserted(OrderOf(es[..|es| - 1]), es[|es| - 1].0)
  }

  /** The contents of `new Map(entries)`: a later value for a key replaces an earlier one. */
  function MapOf<K, V>(es: seq<(K, V)>): map<K, V>
  {
    if |es| == 0 then map[] else MapOf(es[..|es| - 1])[es[|es| - 1].0 := es[|es| - 1].1]
  }

  /** Whatever entries are loaded, the rebuilt map is well formed. */
  lemma {:induction false} FromEntriesWellFormed<K(!new), V>(es: seq<(K, V)>)
    ensures WellFormed(OrderOf(es), MapOf(es))
  {
    if |es| > 0 {
      FromEntriesWellFormed(es[..|es| - 1]);
      InsertedWellFormed(OrderOf(es[..|es| - 1]), MapOf(es[..|es| - 1]), es[|es| - 1].0, es[|es| - 1].1);
    }
  }

  /** Removing the last-inserted key leaves a well-formed map of the earlier keys. */
  lemma DropLast<K(!new), V>(order: seq<K>, m: map<K, V>)
    requires WellFormed(order, m) && |order| > 0
    ensures order[|order| - 1] !in order[..|order| - 1]
    ensures WellFormed(order[..|order| - 1], m - {order[|order| - 1]})
  {
    var init, key := order[..|order| - 1], order[|order| - 1];
    forall j | 0 <= j < |init| ensures init[j] != key {
      assert order[j] != order[|order| - 1];
    }
    forall k | k in m - {key} ensures k in init {
      assert k in order;
      var j :| 0 <= j < |order| && order[j] == k;
      assert init[j] == k;
    }
  }

  lemma LastSplit<K>(s: seq<K>)
    requires |s| > 0
    ensures s[..|s| - 1] + [s[|s| - 1]] == s
  {
  }

  lemma RestoreKey<K, V>(m: map<K, V>, key: K)
    requires key in m
    ensures (m - {key})[key := m[key]] == m
  {
  }

  /** The entries of all but the last-inserted key are the entries before it. */
  lemma EntriesDropLast<K(!new), V>(order: seq<K>, m: map<K, V>)
    requires WellFormed(order, m) && |order| > 0
    ensures var es := Entries(order, m);
      es[..|es| - 1] == Entries(order[..|order| - 1], m - {order[|order| - 1]})
  {
    DropLast(order, m);
    var es := Entries(order, m);
    var init, key := order[..|order| - 1], order[|order| - 1];
    forall i | 0 <= i < |init| ensures es[i] == (init[i], (m - {key})[init[i]]) {
      assert init[i] != key;
    }
  }

  /**
   * Saving the entries of a map and rebuilding the map from them gives back the
   * same keys, values and order: the session's answers survive the trip through storage.
   */
  lemma {:induction false} EntriesRoundTrip<K(!new), V>(order: seq<K>, m: map<K, V>)
    requires WellFormed(order, m)
    ensures OrderOf(Entries(order, m)) == order
    ensures MapOf(Entries(order, m)) == m
    decreases |order|
  {
    if |order| > 0 {
      var init, key := order[..|order| - 1], order[|order| - 1];
      var rest := m - {key};
      var es := Entries(order, m);
      DropLast(order, m);
      EntriesRoundTrip(init, rest);
      EntriesDropLast(order, m);
      assert es[|es| - 1] == (key, m[key]);
      assert OrderOf(es) == order by {
        assert OrderOf(es) == Inserted(init, key);
        LastSplit(order);
      }
      assert MapOf(es) == m by {
        assert MapOf(es) == rest[key := m[key]];
        RestoreKey(m, key);
      }
    }
  }
}
