/**
 * A JavaScript `Map`: a dictionary that remembers insertion order.
 * `set` of a new key appends it to the iteration order, `set` of a present
 * key replaces its value and keeps its position, `delete` drops the key.
 * `values()` and `forEach` visit the entries in that order.
 */
module JsMaps {
  import opened Wrappers

  /** The elements at positions `i` and `j` differ. */
  predicate Apart<K(==)>(s: seq<K>, i: int, j: int)
    requires 0 <= i < |s| && 0 <= j < |s|
  {
    s[i] != s[j]
  }

  /**
   * No element occurs twice. Stated through `Apart`, so that a proof uses a
   * pair of positions only when it names that pair (see `DistinctAt`).
   */
  predicate Distinct<K(==)>(s: seq<K>) {
    forall i, j :: 0 <= i < j < |s| ==> Apart(s, i, j)
  }

  lemma DistinctAt<K>(s: seq<K>, i: int, j: int)
    requires Distinct(s) && 0 <= i < |s| && 0 <= j < |s| && i != j
    ensures s[i] != s[j]
  {
    if i < j {
      assert Apart(s, i, j);
    } else {
      assert Apart(s, j, i);
    }
  }

  /** The tail of a distinct sequence is distinct and lacks the head. */
  lemma DistinctTail<K>(s: seq<K>)
    requires s != []
    ensures Distinct(s) ==> Distinct(s[1..]) && s[0] !in s[1..]
  {
    if Distinct(s) {
      forall i, j | 0 <= i < j < |s| - 1 ensures Apart(s[1..], i, j) {
        assert Apart(s, i + 1, j + 1);
      }
      forall t | 0 <= t < |s| - 1 ensures s[1..][t] != s[0] {
        assert Apart(s, 0, t + 1);
      }
    }
  }

  /** A prefix one longer is the shorter prefix and the next element. */
  lemma PrefixSnoc<K>(s: seq<K>, i: nat)
    requires i < |s|
    ensures s[..i + 1] == s[..i] + [s[i]]
  {
  }

  /** In a distinct sequence no element occurs before its own position. */
  lemma DistinctPrefix<K>(s: seq<K>, i: nat)
    requires Distinct(s) && i < |s|
    ensures s[i] !in s[..i]
  {
    forall t | 0 <= t < i ensures s[..i][t] != s[i] {
      DistinctAt(s, t, i);
    }
  }

  /** All but the last element of a distinct sequence are distinct and lack the last. */
  lemma DistinctInit<K>(s: seq<K>)
    requires s != [] && Distinct(s)
    ensures Distinct(s[..|s| - 1]) && s[|s| - 1] !in s[..|s| - 1]
  {
    var n := |s| - 1;
    forall i, j | 0 <= i < j < n ensures Apart(s[..n], i, j) {
      assert Apart(s, i, j);
    }
    forall t | 0 <= t < n ensures s[..n][t] != s[n] {
      assert Apart(s, t, n);
    }
  }

  /** A new element in front of a distinct sequence keeps it distinct. */
  lemma DistinctCons<K>(x: K, s: seq<K>)
    requires Distinct(s) && x !in s
    ensures Distinct([x] + s)
  {
    var r := [x] + s;
    forall i, j | 0 <= i < j < |r| ensures Apart(r, i, j) {
      if i == 0 {
        assert r[j] == s[j - 1];
      } else {
        assert Apart(s, i - 1, j - 1);
      }
    }
  }

  /** A new element after a distinct sequence keeps it distinct. */
  lemma DistinctSnoc<K>(s: seq<K>, x: K)
    requires Distinct(s) && x !in s
    ensures Distinct(s + [x])
  {
    var r := s + [x];
    forall i, j | 0 <= i < j < |r| ensures Apart(r, i, j) {
      if j == |s| {
        assert r[i] == s[i];
      } else {
        assert Apart(s, i, j);
      }
    }
  }

  /** `s` without any occurrence of `k`, order kept. */
  function RemoveKey<K(==,!new)>(s: seq<K>, k: K): (r: seq<K>)
    ensures forall x :: x in r <==> x in s && x != k
    ensures k !in s ==> r == s
    ensures Distinct(s) ==> Distinct(r)
  {
    if s == [] then []
    else
      DistinctTail(s);
      if s[0] == k then RemoveKey(s[1..], k)
      else
        var rest := RemoveKey(s[1..], k);
        if Distinct(s) then DistinctCons(s[0], rest); [s[0]] + rest
        else [s[0]] + rest
  }

  /** Removing a key distributes over concatenation. */
  lemma {:induction false} RemoveKeyConcat<K(!new)>(a: seq<K>, b: seq<K>, k: K)
    ensures RemoveKey(a + b, k) == RemoveKey(a, k) + RemoveKey(b, k)
  {
    if a == [] {
      assert a + b == b;
    } else {
      assert (a + b)[1..] == a[1..] + b;
      RemoveKeyConcat(a[1..], b, k);
    }
  }

  /**
   * Removing the key found at position `i` of a distinct sequence leaves the
   * keys before it and the keys after it, each in their old order.
   */
  lemma RemoveKeyAt<K(!new)>(s: seq<K>, i: nat)
    requires Distinct(s) && i < |s|
    ensures RemoveKey(s, s[i]) == s[..i] + s[i + 1..]
  {
    var k, before, after := s[i], s[..i], s[i + 1..];
    assert s == before + ([k] + after);
    DistinctPrefix(s, i);
    assert RemoveKey(before, k) == before;
    forall t | 0 <= t < |after| ensures after[t] != k {
      DistinctAt(s, i, i + 1 + t);
    }
    assert RemoveKey(after, k) == after;
    assert [k][1..] == [];
    assert RemoveKey([k], k) == [];
    RemoveKeyConcat([k], after, k);
    RemoveKeyConcat(before, [k] + after, k);
  }

  /** A distinct sequence has as many elements as the set of its elements. */
  lemma {:induction false} DistinctCardinality<K>(s: seq<K>)
    requires Distinct(s)
    ensures |set x | x in s| == |s|
  {
    if s != [] {
      DistinctTail(s);
      DistinctCardinality(s[1..]);
      assert (set x | x in s) == {s[0]} + (set x | x in s[1..]);
      assert s[0] !in (set x | x in s[1..]);
    }
  }

  datatype JsMap<K(==,!new), V(==,!new)> = JsMap(order: seq<K>, table: map<K, V>) {

    /** The iteration order lists every key of the table exactly once. */
    ghost predicate Valid() {
      Distinct(order) && forall k :: k in order <==> k in table
    }

    /** `map.get(k)`. */
    function Get(k: K): (r: Option<V>)
      ensures r.Some? <==> k in table
      ensures r.Some? ==> r.value == table[k]
    {
      if k in table then Some(table[k]) else None
    }

    /** `map.set(k, v)`: a present key keeps its place, a new key goes last. */
    function Set(k: K, v: V): (r: JsMap<K, V>)
      requires Valid()
      ensures r.Valid()
      ensures r.table == table[k := v]
      ensures k in table ==> r.order == order
      ensures k !in table ==> r.order == order + [k]
    {
      if k in table then JsMap(order, table[k := v])
      else DistinctSnoc(order, k); JsMap(order + [k], table[k := v])
    }

    /** `map.delete(k)`: the key leaves both the table and the order. */
    function Delete(k: K): (r: JsMap<K, V>)
      requires Valid()
      ensures r.Valid()
      ensures r.table == table - {k}
      ensures r.order == RemoveKey(order, k)
    {
      JsMap(RemoveKey(order, k), table - {k})
    }

    /** `Array.from(map.values())`: the values in insertion order. */
    function Values(): (r: seq<V>)
      requires Valid()
      ensures |r| == |order| == |table|
      ensures forall i :: 0 <= i < |order| ==> r[i] == table[order[i]]
      ensures forall v :: v in r <==> v in table.Values
    {
      DistinctCardinality(order);
      assert (set x | x in order) == table.Keys;
      var r := seq(|order|, i requires 0 <= i < |order| => table[order[i]]);
      assert forall v :: v in table.Values ==> v in r by {
        forall v | v in table.Values ensures v in r {
          var k :| k in table && table[k] == v;
          var i :| 0 <= i < |order| && order[i] == k;
          assert r[i] == v;
        }
      }
      r
    }
  }

  /** `new Map()`. */
  function Empty<K(==,!new), V(==,!new)>(): (r: JsMap<K, V>)
    ensures r.Valid() && r.table == map[] && r.order == []
  {
    JsMap([], map[])
  }
}
