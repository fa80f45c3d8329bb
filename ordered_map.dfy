/**
 * The JavaScript `Map<string, V>` that every in-memory store keeps in a private
 * field. A `Map` iterates in the order its keys were first inserted, so the
 * model keeps that order beside the entries.
 */
module OrderedMaps {
  import opened Common

  datatype OrderedMap<V> = OrderedMap(keys: seq<string>, entries: map<string, V>)

  /** Keys are listed once each, and exactly the keys of the entries are listed. */
  ghost predicate Valid<V>(m: OrderedMap<V>) {
    && (forall i, j :: 0 <= i < j < |m.keys| ==> m.keys[i] != m.keys[j])
    && (forall i :: 0 <= i < |m.keys| ==> m.keys[i] in m.entries)
    && (forall k :: k in m.entries ==> k in m.keys)
  }

  /** `new Map()`. */
  function Empty<V>(): (m: OrderedMap<V>)
    ensures Valid(m) && m.entries == map[] && m.keys == []
  {
    OrderedMap([], map[])
  }

  /** `m.get(k)`, with `None` for `undefined`: a value exactly for a listed key, and then one of the listed values. */
  function Get<V>(m: OrderedMap<V>, k: string): (r: Option<V>)
    ensures Valid(m) ==> (r.Some? <==> k in m.keys)
    ensures Valid(m) && r.Some? ==> r.value in Values(m)
  {
    if k in m.entries then
      assert Valid(m) ==> m.entries[k] in Values(m) by {
        if Valid(m) {
          ValuesMembers(m, m.entries[k]);
        }
      }
      Some(m.entries[k])
    else None
  }

  function IndexOf(keys: seq<string>, k: string): (i: nat)
    requires k in keys
    ensures i < |keys| && keys[i] == k
  {
    if keys[0] == k then 0 else 1 + IndexOf(keys[1..], k)
  }

  /** `m.set(k, v)`: a new key goes last, an existing key keeps its place. */
  function Set<V>(m: OrderedMap<V>, k: string, v: V): (r: OrderedMap<V>)
    requires Valid(m)
    ensures Valid(r)
    ensures r.entries == m.entries[k := v]
    ensures k in m.entries ==> r.keys == m.keys
    ensures k !in m.entries ==> r.keys == m.keys + [k]
  {
    if k in m.entries then OrderedMap(m.keys, m.entries[k := v])
    else OrderedMap(m.keys + [k], m.entries[k := v])
  }

  /** `m.delete(k)`: removes the key if present and otherwise changes nothing. */
  function Delete<V>(m: OrderedMap<V>, k: string): (r: OrderedMap<V>)
    requires Valid(m)
    ensures Valid(r)
    ensures r.entries == m.entries - {k}
    ensures k !in m.entries ==> r == m
    ensures k in m.entries ==> r.keys == m.keys[..IndexOf(m.keys, k)] + m.keys[IndexOf(m.keys, k) + 1..]
  {
    if k in m.entries then
      var i := IndexOf(m.keys, k);
      RemoveAtValid(m, i);
      OrderedMap(m.keys[..i] + m.keys[i + 1..], m.entries - {k})
    else m
  }

  /** Dropping the key at `i` from both the keys and the entries keeps the map valid. */
  lemma RemoveAtValid<V>(m: OrderedMap<V>, i: nat)
    requires Valid(m) && i < |m.keys|
    ensures Valid(OrderedMap(m.keys[..i] + m.keys[i + 1..], m.entries - {m.keys[i]}))
  {
    var ks := m.keys[..i] + m.keys[i + 1..];
    var e := m.entries - {m.keys[i]};
    assert forall a :: 0 <= a < |ks| ==> ks[a] == m.keys[if a < i then a else a + 1];
    forall x | x in e ensures x in ks {
      var b :| 0 <= b < |m.keys| && m.keys[b] == x;
      assert ks[if b < i then b else b - 1] == x;
    }
  }

  /** `Array.from(m.values())`: the values in key-insertion order. */
  function Values<V>(m: OrderedMap<V>): (vs: seq<V>)
    requires Valid(m)
    ensures |vs| == |m.keys|
    ensures forall i :: 0 <= i < |vs| ==> vs[i] == m.entries[m.keys[i]]
  {
    Lookup(m.keys, m.entries)
  }

  /** The values of `keys` in `e`, in the order of `keys`. */
  function Lookup<V>(keys: seq<string>, e: map<string, V>): (vs: seq<V>)
    requires forall a :: 0 <= a < |keys| ==> keys[a] in e
    ensures |vs| == |keys|
    ensures forall a :: 0 <= a < |vs| ==> vs[a] == e[keys[a]]
  {
    seq(|keys|, a requires 0 <= a < |keys| => e[keys[a]])
  }

  /** Deleting twice is deleting once. */
  lemma DeleteIdempotent<V>(m: OrderedMap<V>, k: string)
    requires Valid(m)
    ensures Delete(Delete(m, k), k) == Delete(m, k)
  {
  }

  /** A value is listed exactly when some key maps to it. */
  lemma ValuesMembers<V>(m: OrderedMap<V>, v: V)
    requires Valid(m)
    ensures v in Values(m) <==> exists k :: k in m.entries && m.entries[k] == v
  {
    var vs := Values(m);
    if exists k :: k in m.entries && m.entries[k] == v {
      var k :| k in m.entries && m.entries[k] == v;
      var i :| 0 <= i < |m.keys| && m.keys[i] == k;
      assert vs[i] == v;
    }
  }

  /** Setting a new key appends its value. */
  lemma ValuesSetNew<V>(m: OrderedMap<V>, k: string, v: V)
    requires Valid(m) && k !in m.entries
    ensures Values(Set(m, k, v)) == Values(m) + [v]
  {
    var r := Set(m, k, v);
    assert forall i :: 0 <= i < |m.keys| ==> m.keys[i] != k;
  }

  /** Setting an existing key replaces its value in place. */
  lemma ValuesSetExisting<V>(m: OrderedMap<V>, k: string, v: V)
    requires Valid(m) && k in m.entries
    ensures Values(Set(m, k, v)) == Values(m)[IndexOf(m.keys, k) := v]
  {
  }

  /** Deleting a present key drops its value from the listing and keeps the rest in order. */
  lemma ValuesDelete<V>(m: OrderedMap<V>, k: string)
    requires Valid(m) && k in m.entries
    ensures var i := IndexOf(m.keys, k);
            Values(Delete(m, k)) == Values(m)[..i] + Values(m)[i + 1..]
  {
    var i := IndexOf(m.keys, k);
    var d := Delete(m, k);
    LookupSkip(m.keys, m.entries, i, d.keys, d.entries);
    assert Values(d) == Lookup(d.keys, d.entries);
    assert Values(m) == Lookup(m.keys, m.entries);
  }

  /**
   * Looking up all keys but the one at `i`, in a map that agrees on them,
   * skips position `i` of the full lookup.
   */
  lemma LookupSkip<V>(keys: seq<string>, e: map<string, V>, i: nat, ks: seq<string>, e2: map<string, V>)
    requires i < |keys|
    requires forall a :: 0 <= a < |keys| ==> keys[a] in e
    requires forall a, b :: 0 <= a < b < |keys| ==> keys[a] != keys[b]
    requires ks == keys[..i] + keys[i + 1..]
    requires e2 == e - {keys[i]}
    ensures forall a :: 0 <= a < |ks| ==> ks[a] in e2
    ensures Lookup(ks, e2) == Lookup(keys, e)[..i] + Lookup(keys, e)[i + 1..]
  {
    assert forall a :: 0 <= a < |ks| ==> ks[a] == keys[if a < i then a else a + 1];
    var vs := Lookup(keys, e);
    var ws := Lookup(ks, e2);
    var rest := vs[..i] + vs[i + 1..];
    forall a | 0 <= a < |ws|
      ensures ws[a] == rest[a]
    {
      var b := if a < i then a else a + 1;
      assert rest[a] == vs[b];
    }
  }

  /** Values stored under distinct keys that carry their own key are distinct. */
  lemma ValuesDistinct<V>(m: OrderedMap<V>, id: V -> string)
    requires Valid(m)
    requires forall k :: k in m.entries ==> id(m.entries[k]) == k
    ensures forall i, j :: 0 <= i < j < |Values(m)| ==> Values(m)[i] != Values(m)[j]
  {
    var vs := Values(m);
    forall i, j | 0 <= i < j < |vs|
      ensures vs[i] != vs[j]
    {
      assert id(vs[i]) == m.keys[i];
      assert id(vs[j]) == m.keys[j];
    }
  }

  /** A valid map lists one key per entry. */
  lemma KeysCount<V>(m: OrderedMap<V>)
    requires Valid(m)
    ensures |m.entries| == |m.keys|
  {
    assert m.entries.Keys == set k | k in m.keys;
    DistinctCard(m.keys);
  }

  lemma {:induction false} DistinctCard(ks: seq<string>)
    requires forall i, j :: 0 <= i < j < |ks| ==> ks[i] != ks[j]
    ensures |set k | k in ks| == |ks|
  {
    if ks != [] {
      DistinctCard(ks[1..]);
      assert (set k | k in ks) == {ks[0]} + (set k | k in ks[1..]);
      assert ks[0] !in ks[1..];
    }
  }
}
