/** A Python dict keeps its keys in insertion order. This module models that order as a sequence
    of keys beside a map, with the order changes made by `d[k] = v`, `d.pop(k)` and
    `list(d.values())`. The table's dict is keyed by integer ids. */
module OrderedDict {

  /** The keys of a dict are pairwise distinct. */
  ghost predicate Distinct(keys: seq<int>)
  {
    forall i, j :: 0 <= i < j < |keys| ==> keys[i] != keys[j]
  }

  /** Every key in the order has an entry in the map. */
  ghost predicate Listed<V>(keys: seq<int>, m: map<int, V>)
  {
    forall i :: 0 <= i < |keys| ==> keys[i] in m
  }

  /** `keys` is the insertion order of the dict `m`: each key of `m` exactly once. */
  ghost predicate IsOrderOf<V>(keys: seq<int>, m: map<int, V>)
  {
    && Distinct(keys)
    && Listed(keys, m)
    && (forall k :: k in m ==> k in keys)
  }

  /** Key order after `d[k] = v`: a new key goes last, an existing key keeps its place. */
  function Insert(keys: seq<int>, k: int): seq<int>
  {
    if k in keys then keys else keys + [k]
  }

  /** Key order after `d.pop(k)`: `k` leaves, every other key keeps its relative order. */
  function Remove(keys: seq<int>, k: int): (r: seq<int>)
    ensures |r| <= |keys|
  {
    if keys == [] then []
    else if keys[0] == k then Remove(keys[1..], k)
    else [keys[0]] + Remove(keys[1..], k)
  }

  /** The position of `k` in the key order: the first place where it occurs. */
  function IndexOf(keys: seq<int>, k: int): (i: nat)
    requires k in keys
    ensures i < |keys| && keys[i] == k
    ensures forall j :: 0 <= j < i ==> keys[j] != k
  {
    if keys[0] == k then 0 else 1 + IndexOf(keys[1..], k)
  }

  /** `list(d.values())`: the value of every key, in key order. */
  function Values<V>(keys: seq<int>, m: map<int, V>): (r: seq<V>)
    requires Listed(keys, m)
    ensures |r| == |keys|
    ensures forall i :: 0 <= i < |keys| ==> r[i] == m[keys[i]]
  {
    if keys == [] then [] else [m[keys[0]]] + Values(keys[1..], m)
  }

  /** `d[k] = v` with a new key appends `k` to the order, which stays the order of the new dict;
      with an existing key the order is unchanged. */
  lemma InsertOrder<V>(keys: seq<int>, m: map<int, V>, k: int, v: V)
    requires IsOrderOf(keys, m)
    ensures k !in m ==> Insert(keys, k) == keys + [k]
    ensures k in m ==> Insert(keys, k) == keys
    ensures IsOrderOf(Insert(keys, k), m[k := v])
  {
  }

  /** After `d.pop(k)` the dict holds exactly the keys it held before, other than `k`. */
  lemma {:induction false} RemoveMembers(keys: seq<int>, k: int, x: int)
    ensures x in Remove(keys, k) <==> x in keys && x != k
  {
    if keys != [] {
      assert keys == [keys[0]] + keys[1..];
      RemoveMembers(keys[1..], k, x);
    }
  }

  /** Popping a key that is absent leaves the order as it was. */
  lemma {:induction false} RemoveAbsent(keys: seq<int>, k: int)
    requires k !in keys
    ensures Remove(keys, k) == keys
  {
    if keys != [] {
      assert keys == [keys[0]] + keys[1..];
      RemoveAbsent(keys[1..], k);
    }
  }

  /** Dropping the first key of a distinct order leaves a distinct order. */
  lemma DistinctTail(keys: seq<int>)
    requires Distinct(keys) && keys != []
    ensures Distinct(keys[1..])
  {
  }

  /** Popping the key at position `i` of a distinct key order cuts out exactly that position. */
  lemma {:induction false} RemoveAt(keys: seq<int>, i: nat)
    requires Distinct(keys) && i < |keys|
    ensures Remove(keys, keys[i]) == keys[..i] + keys[i + 1..]
  {
    var k, rest := keys[i], keys[1..];
    if i == 0 {
      assert k !in rest by {
        forall a | 0 <= a < |rest| ensures rest[a] != k {
          assert rest[a] == keys[a + 1];
        }
      }
      RemoveAbsent(rest, k);
    } else {
      assert keys[0] != k;
      assert rest[i - 1] == k;
      DistinctTail(keys);
      RemoveAt(rest, i - 1);
      calc {
        Remove(keys, k);
        [keys[0]] + Remove(rest, k);
        [keys[0]] + (rest[..i - 1] + rest[i..]);
        { assert rest[..i - 1] == keys[1..i] && rest[i..] == keys[i + 1..]; }
        [keys[0]] + (keys[1..i] + keys[i + 1..]);
        { assert keys[..i] == [keys[0]] + keys[1..i]; }
        keys[..i] + keys[i + 1..];
      }
    }
  }

  /** Position `a` of the order with position `i` cut out is position `a` or `a + 1` of the original. */
  lemma CutAt(keys: seq<int>, i: nat, a: nat)
    requires i < |keys| && a < |keys| - 1
    ensures (keys[..i] + keys[i + 1..])[a] == keys[if a < i then a else a + 1]
  {
  }

  /** `d.pop(k)` of a present key leaves an order of the smaller dict. */
  lemma RemoveOrder<V>(keys: seq<int>, m: map<int, V>, k: int)
    requires IsOrderOf(keys, m) && k in m
    ensures IsOrderOf(Remove(keys, k), m - {k})
  {
    var i := IndexOf(keys, k);
    RemoveAt(keys, i);
    var r := Remove(keys, k);
    forall a, b | 0 <= a < b < |r| ensures r[a] != r[b] {
      CutAt(keys, i, a);
      CutAt(keys, i, b);
    }
    forall x | x in m - {k} ensures x in r {
      assert keys[IndexOf(keys, x)] == x;
    }
  }

  /** A distinct key order lists as many keys as the dict holds. */
  lemma {:induction false} DistinctCardinality(keys: seq<int>)
    requires Distinct(keys)
    ensures |set k | k in keys| == |keys|
  {
    if keys != [] {
      var rest := keys[1..];
      DistinctTail(keys);
      DistinctCardinality(rest);
      assert keys[0] !in rest by {
        forall a | 0 <= a < |rest| ensures rest[a] != keys[0] {
          assert rest[a] == keys[a + 1];
        }
      }
      assert (set k | k in keys) == {keys[0]} + (set k | k in rest) by {
        assert keys == [keys[0]] + rest;
      }
    }
  }

  /** The order of a dict has one entry per key: `len(d) == len(list(d.values()))`. */
  lemma OneEntryPerKey<V>(keys: seq<int>, m: map<int, V>)
    requires IsOrderOf(keys, m)
    ensures |m| == |keys|
  {
    DistinctCardinality(keys);
    var ks := set x | x in keys;
    forall x ensures x in ks <==> x in m.Keys {
      if x in keys {
        assert keys[IndexOf(keys, x)] == x;
      }
    }
    assert ks == m.Keys;
  }

  /** Every value of the dict appears in its listing. */
  lemma ValuesCover<V>(keys: seq<int>, m: map<int, V>)
    requires IsOrderOf(keys, m)
    ensures forall x :: x in m ==> m[x] in Values(keys, m)
  {
  }

  /** `d[k] = v` for a new key `k` appends `v` to the listing. */
  lemma ValuesAppend<V>(keys: seq<int>, m: map<int, V>, k: int, v: V)
    requires Listed(keys, m) && k !in keys
    ensures Listed(keys + [k], m[k := v])
    ensures Values(keys + [k], m[k := v]) == Values(keys, m) + [v]
  {
  }

  /** `d[k] = v` for an existing key replaces `k`'s value in place in the listing. */
  lemma ValuesReplace<V>(keys: seq<int>, m: map<int, V>, k: int, v: V)
    requires Listed(keys, m) && Distinct(keys) && k in keys
    ensures Listed(keys, m[k := v])
    ensures Values(keys, m[k := v]) == Values(keys, m)[IndexOf(keys, k) := v]
  {
  }

  /** `d.pop(k)` cuts `k`'s value out of the listing and keeps the others in order. */
  lemma ValuesRemove<V>(keys: seq<int>, m: map<int, V>, k: int)
    requires IsOrderOf(keys, m) && k in m
    ensures Listed(Remove(keys, k), m - {k})
    ensures var i, before := IndexOf(keys, k), Values(keys, m);
      Values(Remove(keys, k), m - {k}) == before[..i] + before[i + 1..]
  {
    RemoveOrder(keys, m, k);
    var i := IndexOf(keys, k);
    RemoveAt(keys, i);
    var before := Values(keys, m);
    var r, s := Values(Remove(keys, k), m - {k}), before[..i] + before[i + 1..];
    assert |r| == |s|;
    forall j | 0 <= j < |r| ensures r[j] == s[j] {
      CutAt(keys, i, j);
      assert s[j] == before[if j < i then j else j + 1];
    }
  }
}
