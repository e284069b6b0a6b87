/** Sequence and map helpers shared by the entity classes and the engine:
    duplicate-freedom, the insertion order of a dictionary, and listing a
    dictionary's values or items in that order. */
module Collections {

  /** No element occurs twice in `s`. */
  predicate NoDups<T(==)>(s: seq<T>) {
    forall i, j :: 0 <= i < j < |s| ==> s[i] != s[j]
  }

  /** `order` lists every key of `keys` exactly once: the iteration order of a dictionary. */
  predicate Enumerates<T(==,!new)>(order: seq<T>, keys: set<T>) {
    NoDups(order) && (forall i | 0 <= i < |order| :: order[i] in keys) && (forall x | x in keys :: x in order)
  }

  /** The prefix of `s` one longer ends with the next element. */
  lemma TakeStep<T>(s: seq<T>, i: nat)
    requires i < |s|
    ensures s[..i + 1] == s[..i] + [s[i]]
  {
  }

  /** The prefix of `s` as long as `s` is `s` itself. */
  lemma TakeAll<T>(s: seq<T>)
    ensures s[..|s|] == s
  {
  }

  /** The insertion order of a dictionary after `d[key] = v`: a known key keeps its
      position, a new key goes to the end. */
  function InsertKey<T(==,!new)>(order: seq<T>, key: T): (r: seq<T>)
    ensures key in r && forall x :: x in r <==> x in order || x == key
    ensures NoDups(order) ==> NoDups(r)
    ensures order <= r
  {
    if key in order then order else order + [key]
  }

  /** Recording a key in the insertion order keeps the order in step with the key set. */
  lemma EnumeratesInsert<T(!new)>(order: seq<T>, keys: set<T>, key: T)
    requires Enumerates(order, keys)
    ensures Enumerates(InsertKey(order, key), keys + {key})
  {
  }

  /** A duplicate-free sequence has as many elements as the set it enumerates. */
  lemma {:induction false} DistinctCard(order: seq<int>, keys: set<int>)
    ensures Enumerates(order, keys) ==> |keys| == |order|
  {
    if order != [] && Enumerates(order, keys) {
      var last := order[|order| - 1];
      var init := order[..|order| - 1];
      assert order == init + [last];
      forall i, j | 0 <= i < j < |init| ensures init[i] != init[j] {
        assert init[i] == order[i] && init[j] == order[j];
      }
      forall i | 0 <= i < |init| ensures init[i] != last {
        assert init[i] == order[i];
      }
      assert Enumerates(init, keys - {last});
      DistinctCard(init, keys - {last});
    }
  }

  /** `list(d.values())` for a dictionary whose insertion order is `order`. */
  function ValuesAt<K, V>(order: seq<K>, m: map<K, V>): (r: seq<V>)
    requires forall i :: 0 <= i < |order| ==> order[i] in m
    ensures |r| == |order|
    ensures forall i :: 0 <= i < |order| ==> r[i] == m[order[i]]
  {
    if order == [] then [] else ValuesAt(order[..|order| - 1], m) + [m[order[|order| - 1]]]
  }

  /** Some element of a non-empty set. Which one is left open: it stands for the
      (unspecified) order in which a set is iterated. */
  ghost function Pick<T>(s: set<T>): (x: T)
    requires s != {}
    ensures x in s
  {
    var x :| x in s; x
  }

  /** The executable counterpart of `Pick`: the next element a set iteration visits. */
  method Choose<T>(s: set<T>) returns (x: T)
    requires s != {}
    ensures x in s
  {
    x :| x in s;
  }

  /** The entries of `m` whose keys lie in `keys`. */
  ghost function Restrict<K(!new), V>(m: map<K, V>, keys: set<K>): (r: map<K, V>)
    ensures forall k :: k in r <==> k in m && k in keys
    ensures forall k | k in r :: r[k] == m[k]
  {
    map k | k in m && k in keys :: m[k]
  }

  /** Writing one more entry of `t` over `base` extends the restriction by its key. */
  lemma OverrideStep<K(!new), V>(base: map<K, V>, t: map<K, V>, done: set<K>, k: K)
    requires k in t
    ensures (base + Restrict(t, done))[k := t[k]] == base + Restrict(t, done + {k})
  {
  }

  /** Restricting to a superset of the keys changes nothing. */
  lemma RestrictAll<K(!new), V>(m: map<K, V>, keys: set<K>)
    requires m.Keys <= keys
    ensures Restrict(m, keys) == m
  {
  }
}
