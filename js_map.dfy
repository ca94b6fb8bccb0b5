/** JavaScript `Map` objects (and plain objects used as dictionaries) remember
    the order in which their keys were first inserted, and `entries()`,
    `values()`, `Array.from(...)` and `for..in` visit them in that order.
    A `JsMap` is the lookup table together with that key order. */
module JsMaps {
  import opened Common

  /** `s` with every occurrence of `x` removed, the rest in order. */
  function Without<K(==,!new)>(s: seq<K>, x: K): (r: seq<K>)
    ensures forall y :: y in r <==> y in s && y != x
    ensures Distinct(s) ==> Distinct(r)
    ensures x !in s ==> r == s
    ensures |r| <= |s|
  {
    if s == [] then []
    else if s[0] == x then Without(s[1..], x)
    else
      var rest := Without(s[1..], x);
      assert Distinct(s) ==> s[0] !in s[1..] && Distinct(s[1..]) by {
        if Distinct(s) {
          forall k | 0 <= k < |s[1..]| ensures s[1..][k] != s[0] { assert s[1..][k] == s[k + 1]; }
        }
      }
      [s[0]] + rest
  }

  datatype JsMap<K(==,!new), V(==)> = JsMap(keys: seq<K>, table: map<K, V>) {

    /** Keys are listed once each, and exactly the keys of the table are listed. */
    ghost predicate Valid() {
      && Distinct(keys)
      && (forall k :: k in table <==> k in keys)
    }

    /** `map.has(k)` */
    predicate Has(k: K) {
      k in table
    }

    /** `map.get(k)`, with `undefined` as `None` */
    function Get(k: K): Option<V> {
      if k in table then Some(table[k]) else None
    }

    /** `map.set(k, v)`: a new key goes last, an existing key keeps its place. */
    function Set(k: K, v: V): (r: JsMap<K, V>)
      requires Valid()
      ensures r.Valid()
      ensures r.table == table[k := v]
      ensures k in table ==> r.keys == keys
      ensures k !in table ==> r.keys == keys + [k]
    {
      if k in table then JsMap(keys, table[k := v]) else JsMap(keys + [k], table[k := v])
    }

    /** `map.delete(k)`: the other keys keep their relative order. */
    function Delete(k: K): (r: JsMap<K, V>)
      requires Valid()
      ensures r.Valid()
      ensures r.table == table - {k}
      ensures r.keys == Without(keys, k)
    {
      JsMap(Without(keys, k), table - {k})
    }

    /** `Array.from(map.values()).includes(v)` */
    predicate HasValue(v: V) {
      v in table.Values
    }

    /** `Array.from(map.keys()).findIndex(k => p(map.get(k)))`: the position
        of the first key, in insertion order, whose value satisfies `p`, or -1. */
    function FirstIndexWhere(p: V -> bool, from: nat := 0): (i: int)
      requires Valid()
      requires from <= |keys|
      ensures i == -1 || from <= i < |keys|
      ensures i != -1 ==> p(table[keys[i]])
      ensures forall j :: from <= j < |keys| && (i == -1 || j < i) ==> !p(table[keys[j]])
      decreases |keys| - from
    {
      if from == |keys| then -1
      else if p(table[keys[from]]) then from
      else FirstIndexWhere(p, from + 1)
    }

    /** The first key, in insertion order, whose value satisfies `p`. */
    function FirstKeyWhere(p: V -> bool): (r: Option<K>)
      requires Valid()
      ensures r.Some? ==> r.value in table && p(table[r.value])
      ensures r.None? ==> forall k :: k in table ==> !p(table[k])
    {
      var i := FirstIndexWhere(p);
      if i == -1 then None else Some(keys[i])
    }
  }

  function Empty<K(==,!new), V(==)>(): (r: JsMap<K, V>)
    ensures r.Valid() && r.table == map[]
  {
    JsMap([], map[])
  }

  /** The key order of `m.Delete(k)` is that of `m` with `k` left out: every
      key that stays keeps its place relative to the others. */
  lemma {:induction false} WithoutKeepsOrder<K(!new)>(s: seq<K>, x: K, i: nat, j: nat)
    requires i < j < |s| && s[i] != x && s[j] != x
    ensures exists a, b :: 0 <= a < b < |Without(s, x)| && Without(s, x)[a] == s[i] && Without(s, x)[b] == s[j]
  {
    if s[0] == x {
      WithoutKeepsOrder(s[1..], x, i - 1, j - 1);
      var a, b :| 0 <= a < b < |Without(s[1..], x)| && Without(s[1..], x)[a] == s[1..][i - 1] && Without(s[1..], x)[b] == s[1..][j - 1];
      assert Without(s, x)[a] == s[i] && Without(s, x)[b] == s[j];
    } else if i == 0 {
      assert s[j] in Without(s[1..], x) by { assert s[1..][j - 1] == s[j]; }
      var b :| 0 <= b < |Without(s[1..], x)| && Without(s[1..], x)[b] == s[j];
      assert Without(s, x)[0] == s[i] && Without(s, x)[b + 1] == s[j];
    } else {
      WithoutKeepsOrder(s[1..], x, i - 1, j - 1);
      var a, b :| 0 <= a < b < |Without(s[1..], x)| && Without(s[1..], x)[a] == s[1..][i - 1] && Without(s[1..], x)[b] == s[1..][j - 1];
      assert Without(s, x)[a + 1] == s[i] && Without(s, x)[b + 1] == s[j];
    }
  }
}
