/** A JavaScript `Map` with integer keys: a key/value table that remembers the order in
    which keys were first inserted. Re-setting a present key keeps its place; deleting
    forgets it. */
module JsMap {

  datatype JsMap<V> = JsMap(order: seq<int>, entries: map<int, V>)

  ghost predicate Distinct(s: seq<int>) {
    forall i, j :: 0 <= i < j < |s| ==> s[i] != s[j]
  }

  /** The order lists each key of the table exactly once. */
  ghost predicate Valid<V>(m: JsMap<V>) {
    && Distinct(m.order)
    && (forall k :: k in m.order <==> k in m.entries)
  }

  function Empty<V>(): (m: JsMap<V>)
    ensures Valid(m) && m.entries == map[]
  {
    JsMap([], map[])
  }

  /** `m.set(k, v)` */
  function Set<V>(m: JsMap<V>, k: int, v: V): (r: JsMap<V>)
    requires Valid(m)
    ensures Valid(r)
    ensures r.entries == m.entries[k := v]
    ensures k in m.entries ==> r.order == m.order
    ensures k !in m.entries ==> r.order == m.order + [k]
  {
    if k in m.entries then JsMap(m.order, m.entries[k := v])
    else JsMap(m.order + [k], m.entries[k := v])
  }

  /** The sequence with every occurrence of `k` removed, the rest in order. */
  function Without(s: seq<int>, k: int): (r: seq<int>)
    ensures forall x :: x in r <==> x in s && x != k
    decreases |s|
  {
    if |s| == 0 then []
    else if s[0] == k then Without(s[1..], k)
    else [s[0]] + Without(s[1..], k)
  }

  /** Removing a key from a list without repetitions leaves a list without repetitions. */
  lemma {:induction false} WithoutDistinct(s: seq<int>, k: int)
    requires Distinct(s)
    ensures Distinct(Without(s, k))
    decreases |s|
  {
    if |s| > 0 {
      assert Distinct(s[1..]) by {
        forall i, j | 0 <= i < j < |s[1..]| ensures s[1..][i] != s[1..][j] {
          assert s[1..][i] == s[i + 1] && s[1..][j] == s[j + 1];
        }
      }
      WithoutDistinct(s[1..], k);
      var rest := Without(s[1..], k);
      if s[0] != k {
        assert s[0] !in s[1..] by {
          forall i | 0 <= i < |s[1..]| ensures s[1..][i] != s[0] {
            assert s[1..][i] == s[i + 1];
          }
        }
        var r := [s[0]] + rest;
        forall i, j | 0 <= i < j < |r| ensures r[i] != r[j] {
          assert r[j] == rest[j - 1] && r[j] in rest;
          if i > 0 {
            assert r[i] == rest[i - 1];
          }
        }
      }
    }
  }

  /** The position of `k` in a list that holds it: its first occurrence. */
  function IndexOf(s: seq<int>, k: int): (i: nat)
    requires k in s
    ensures i < |s| && s[i] == k && k !in s[..i]
    decreases |s|
  {
    if s[0] == k then 0
    else
      var i := 1 + IndexOf(s[1..], k);
      assert s[..i] == [s[0]] + s[1..][..i - 1];
      i
  }

  /** Removing a key a list does not hold changes nothing. */
  lemma {:induction false} WithoutAbsent(s: seq<int>, k: int)
    requires k !in s
    ensures Without(s, k) == s
    decreases |s|
  {
    if |s| > 0 {
      WithoutAbsent(s[1..], k);
      assert s == [s[0]] + s[1..];
    }
  }

  /** Removal works piecewise: the two parts of a list lose `k` independently and keep
      their order. */
  lemma {:induction false} WithoutConcat(a: seq<int>, b: seq<int>, k: int)
    ensures Without(a + b, k) == Without(a, k) + Without(b, k)
    decreases |a|
  {
    if |a| == 0 {
      assert a + b == b;
    } else {
      assert (a + b)[0] == a[0] && (a + b)[1..] == a[1..] + b;
      WithoutConcat(a[1..], b, k);
    }
  }

  /** In a list without repetitions, removing a present key cuts out exactly its position. */
  lemma WithoutAt(s: seq<int>, k: int)
    requires Distinct(s) && k in s
    ensures var i := IndexOf(s, k); Without(s, k) == s[..i] + s[i + 1..]
  {
    var i := IndexOf(s, k);
    assert s == s[..i] + ([k] + s[i + 1..]);
    assert k !in s[i + 1..] by {
      forall j | i + 1 <= j < |s| ensures s[j] != k {
        assert s[i] == k;
      }
    }
    WithoutConcat(s[..i], [k] + s[i + 1..], k);
    WithoutConcat([k], s[i + 1..], k);
    WithoutAbsent(s[..i], k);
    WithoutAbsent(s[i + 1..], k);
    assert Without([k], k) == [];
  }

  /** `m.delete(k)`: a no-op when `k` is absent; otherwise the key leaves the table and
      its position in the order, and the remaining keys keep their relative order. */
  function Delete<V>(m: JsMap<V>, k: int): (r: JsMap<V>)
    requires Valid(m)
    ensures Valid(r)
    ensures r.entries == m.entries - {k}
    ensures forall x :: x in r.order <==> x in m.order && x != k
    ensures k !in m.entries ==> r == m
    ensures k in m.entries ==>
      var i := IndexOf(m.order, k); r.order == m.order[..i] + m.order[i + 1..]
  {
    WithoutDistinct(m.order, k);
    if k in m.order then
      WithoutAt(m.order, k);
      JsMap(Without(m.order, k), m.entries - {k})
    else
      WithoutAbsent(m.order, k);
      assert m.entries - {k} == m.entries;
      JsMap(Without(m.order, k), m.entries - {k})
  }

  /** `Array.from(m.keys())`: every key once, in the order of the table's insertion
      record: a key set anew keeps its place, a deleted key drops out, and a key set
      again after a deletion comes last. */
  function Keys<V>(m: JsMap<V>): (ks: seq<int>)
    requires Valid(m)
    ensures forall k :: k in ks <==> k in m.entries
    ensures Distinct(ks)
  {
    m.order
  }

  /** Keys after `set`: a new key is listed last, a present key keeps its place. */
  lemma SetThenKeys<V>(m: JsMap<V>, k: int, v: V)
    requires Valid(m)
    ensures Keys(Set(m, k, v)) == if k in m.entries then Keys(m) else Keys(m) + [k]
  {
  }

  /** Keys after `delete`: a present key is cut out of the listing, the rest keep their
      order. */
  lemma DeleteThenKeys<V>(m: JsMap<V>, k: int)
    requires Valid(m)
    ensures k in m.entries ==>
      var i := IndexOf(Keys(m), k); Keys(Delete(m, k)) == Keys(m)[..i] + Keys(m)[i + 1..]
    ensures k !in m.entries ==> Keys(Delete(m, k)) == Keys(m)
  {
  }
}
