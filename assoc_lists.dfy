/**
 * Association lists: a finite ordered map is represented by the sequence of
 * its entries in iteration order. For a `BTreeMap` that is ascending key
 * order; the indexer's behaviour depends on that order because it reports
 * the first violation it meets.
 */
module AssocLists {

  /** The keys of an association list, in iteration order. */
  function Keys<K, V>(kvs: seq<(K, V)>): seq<K>
  {
    seq(|kvs|, i requires 0 <= i < |kvs| => kvs[i].0)
  }

  /**
   * The map an association list denotes, where a later entry overrides an
   * earlier one with the same key (what inserting the entries one by one
   * into an empty map produces).
   */
  function ToMap<K(==), V>(kvs: seq<(K, V)>): (m: map<K, V>)
    ensures m.Keys == Elements(Keys(kvs))
  {
    if kvs == [] then map[]
    else
      assert Keys(kvs) == [kvs[0].0] + Keys(kvs[1..]);
      map[kvs[0].0 := kvs[0].1] + ToMap(kvs[1..])
  }

  /** No element occurs twice. */
  predicate NoDup<T(==)>(s: seq<T>)
  {
    forall i, j | 0 <= i < j < |s| :: s[i] != s[j]
  }

  /** `s` lists distinct elements, none of which is already in `used`. */
  predicate FreshKeys<T(==)>(s: seq<T>, used: set<T>)
  {
    NoDup(s) && forall x | x in s :: x !in used
  }

  /** The elements of a sequence, as a set. */
  function Elements<T>(s: seq<T>): set<T>
  {
    set x | x in s
  }

  lemma KeysConcat<K, V>(a: seq<(K, V)>, b: seq<(K, V)>)
    ensures Keys(a + b) == Keys(a) + Keys(b)
  {
    assert forall i | 0 <= i < |a + b| :: Keys(a + b)[i] == (Keys(a) + Keys(b))[i];
  }

  /** Inserting `a + b` fresh keys is inserting `a`, then `b` into what `a` left. */
  lemma FreshConcat<T>(a: seq<T>, b: seq<T>, used: set<T>)
    ensures FreshKeys(a + b, used) <==> FreshKeys(a, used) && FreshKeys(b, used + Elements(a))
  {
    var ab := a + b;
    if FreshKeys(a, used) && FreshKeys(b, used + Elements(a)) {
      forall i, j | 0 <= i < j < |ab| ensures ab[i] != ab[j] {
        if j < |a| {
        } else if i < |a| {
          assert ab[i] in Elements(a);
          assert ab[j] == b[j - |a|];
        } else {
          assert ab[i] == b[i - |a|] && ab[j] == b[j - |a|];
        }
      }
      forall x | x in ab ensures x !in used {
        var k :| 0 <= k < |ab| && ab[k] == x;
        if k >= |a| { assert x == b[k - |a|]; }
      }
    }
    if FreshKeys(ab, used) {
      forall i, j | 0 <= i < j < |a| ensures a[i] != a[j] {
        assert ab[i] == a[i] && ab[j] == a[j];
      }
      forall i, j | 0 <= i < j < |b| ensures b[i] != b[j] {
        assert ab[|a| + i] == b[i] && ab[|a| + j] == b[j];
      }
      forall x | x in b ensures x !in used + Elements(a) {
        var k :| 0 <= k < |b| && b[k] == x;
        assert ab[|a| + k] == x;
        forall m | 0 <= m < |a| ensures a[m] != x {
          assert ab[m] == a[m];
        }
      }
    }
  }

  /** The special case of `FreshConcat` for a single leading element. */
  lemma FreshCons<T>(x: T, s: seq<T>, used: set<T>)
    ensures FreshKeys([x] + s, used) <==> x !in used && FreshKeys(s, used + {x})
  {
    FreshConcat([x], s, used);
    assert Elements([x]) == {x};
  }

  /** Building the map of a concatenation is overriding the first map with the second. */
  lemma {:induction false} ToMapConcat<K, V>(a: seq<(K, V)>, b: seq<(K, V)>)
    ensures ToMap(a + b) == ToMap(a) + ToMap(b)
  {
    if a == [] {
      assert a + b == b;
    } else {
      assert (a + b)[0] == a[0] && (a + b)[1..] == a[1..] + b;
      var head := map[a[0].0 := a[0].1];
      calc {
        ToMap(a + b);
        head + ToMap(a[1..] + b);
        { ToMapConcat(a[1..], b); }
        head + (ToMap(a[1..]) + ToMap(b));
        (head + ToMap(a[1..])) + ToMap(b);
      }
    }
  }

  /** Inserting one entry and then a list is adding the list that starts with that entry. */
  lemma InsertThenUnion<K, V>(m: map<K, V>, k: K, v: V, rest: seq<(K, V)>)
    ensures m[k := v] + ToMap(rest) == m + ToMap([(k, v)] + rest)
  {
    ToMapConcat([(k, v)], rest);
    assert ToMap([(k, v)]) == map[k := v];
  }

  /** In a list without repeated keys, every entry is what the map holds for its key. */
  lemma {:induction false} ToMapLookup<K, V>(kvs: seq<(K, V)>, i: nat)
    requires NoDup(Keys(kvs)) && i < |kvs|
    ensures kvs[i].0 in ToMap(kvs) && ToMap(kvs)[kvs[i].0] == kvs[i].1
  {
    assert Keys(kvs)[i] == kvs[i].0;
    if i > 0 {
      assert Keys(kvs[1..]) == Keys(kvs)[1..];
      assert kvs[1..][i - 1] == kvs[i];
      assert kvs[0].0 != kvs[i].0 by { assert Keys(kvs)[0] == kvs[0].0; }
      ToMapLookup(kvs[1..], i - 1);
    } else {
      forall j | 0 <= j < |kvs[1..]| ensures Keys(kvs[1..])[j] != kvs[0].0 {
        assert Keys(kvs)[j + 1] == Keys(kvs[1..])[j];
      }
    }
  }

  /** Every entry of the map comes from some entry of the list: entry `i`. */
  lemma {:induction false} ToMapSource<K, V>(kvs: seq<(K, V)>, k: K) returns (i: nat)
    requires k in ToMap(kvs)
    ensures i < |kvs| && kvs[i] == (k, ToMap(kvs)[k])
  {
    if k in ToMap(kvs[1..]) {
      var j := ToMapSource(kvs[1..], k);
      i := j + 1;
      assert kvs[i] == kvs[1..][j];
    } else {
      i := 0;
    }
  }
}
