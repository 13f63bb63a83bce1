/**
 * A JavaScript object used as a string-keyed dictionary, as the used-plugin
 * records are: its own keys in the order they were first assigned, and a
 * value per key. Keys that look like array indices, which JavaScript lists
 * first in numeric order, are not told apart here, and neither is
 * `__proto__`, which JavaScript assigns through the prototype setter
 * without creating an own key.
 */
module Objects {

  datatype Dict = Dict(keys: seq<string>, values: map<string, string>)

  predicate Distinct(xs: seq<string>)
  {
    forall i, j | 0 <= i < j < |xs| :: xs[i] != xs[j]
  }

  /** The key order lists every key of the value map exactly once. */
  ghost predicate Valid(d: Dict)
  {
    Distinct(d.keys) && forall k :: k in d.values <==> k in d.keys
  }

  /** `{}` */
  const Empty: Dict := Dict([], map[])

  /** `d[k] = v`: a new key goes to the end of the key order, an assigned one keeps its place. */
  function Put(d: Dict, k: string, v: string): (r: Dict)
    ensures k in r.values && r.values[k] == v
    ensures forall k' | k' != k :: (k' in r.values <==> k' in d.values) && (k' in d.values ==> r.values[k'] == d.values[k'])
    ensures Valid(d) ==> Valid(r) && k in r.keys
    ensures Valid(d) ==> |d.keys| <= |r.keys| && r.keys[..|d.keys|] == d.keys
    ensures Valid(d) && k in d.values ==> r.keys == d.keys
    ensures Valid(d) && k !in d.values ==> |r.keys| == |d.keys| + 1
  {
    if k in d.values then d.(values := d.values[k := v]) else Dict(d.keys + [k], d.values[k := v])
  }

  /** Assigns `v` to each key of `ks` in turn. */
  function PutAll(d: Dict, ks: seq<string>, v: string): Dict
    decreases |ks|
  {
    if ks == [] then d else PutAll(Put(d, ks[0], v), ks[1..], v)
  }

  /** Assigning a key and then a list of keys is assigning the longer list. */
  lemma PutAllCons(d: Dict, k: string, ks: seq<string>, v: string)
    ensures PutAll(Put(d, k, v), ks, v) == PutAll(d, [k] + ks, v)
  {
    assert ([k] + ks)[0] == k && ([k] + ks)[1..] == ks;
  }

  /** The position of the first occurrence of `x` in `xs`. */
  function FirstIndex(xs: seq<string>, x: string): (i: nat)
    requires x in xs
    ensures i < |xs| && xs[i] == x
    ensures forall j | 0 <= j < i :: xs[j] != x
  {
    if xs[0] == x then 0 else 1 + FirstIndex(xs[1..], x)
  }

  /** After assigning every key of `ks`, the object holds exactly the old keys and those of `ks`, each of the latter valued `v`. */
  lemma {:induction false} PutAllValues(d: Dict, ks: seq<string>, v: string)
    ensures var r := PutAll(d, ks, v);
      && (forall k :: k in r.values <==> k in d.values || k in ks)
      && (forall k | k in ks :: r.values[k] == v)
      && (forall k | k in d.values && k !in ks :: r.values[k] == d.values[k])
    decreases |ks|
  {
    if ks != [] {
      PutAllValues(Put(d, ks[0], v), ks[1..], v);
      assert forall x | x in ks :: x == ks[0] || x in ks[1..];
    }
  }

  /** Assigning keys keeps the old key order and lists the new keys after it, in the order of their first assignment. */
  lemma {:induction false} PutAllOrder(d: Dict, ks: seq<string>, v: string)
    requires Valid(d)
    ensures var r := PutAll(d, ks, v);
      && Valid(r)
      && |d.keys| <= |r.keys| && r.keys[..|d.keys|] == d.keys
      && (forall i | |d.keys| <= i < |r.keys| :: r.keys[i] in ks)
      && (forall i, j | |d.keys| <= i < j < |r.keys| :: FirstIndex(ks, r.keys[i]) < FirstIndex(ks, r.keys[j]))
    decreases |ks|
  {
    if ks != [] {
      var k := ks[0];
      var rest := ks[1..];
      var d1 := Put(d, k, v);
      var r := PutAll(d1, rest, v);
      PutAllOrder(d1, rest, v);
      assert r == PutAll(d, ks, v);
      PrefixStep(d, d1, r, ks);
      forall i, j | |d.keys| <= i < j < |r.keys|
        ensures FirstIndex(ks, r.keys[i]) < FirstIndex(ks, r.keys[j])
      {
        OrderStep(d, d1, r, ks, i, j);
      }
    }
  }

  /** One step of `PutAllOrder`: the old keys stay in front, and every key after them is one of the assigned keys. */
  lemma PrefixStep(d: Dict, d1: Dict, r: Dict, ks: seq<string>)
    requires |ks| > 0 && d1.keys == (if ks[0] in d.keys then d.keys else d.keys + [ks[0]])
    requires |d1.keys| <= |r.keys| && r.keys[..|d1.keys|] == d1.keys
    requires forall i | |d1.keys| <= i < |r.keys| :: r.keys[i] in ks[1..]
    ensures |d.keys| <= |r.keys| && r.keys[..|d.keys|] == d.keys
    ensures forall i | |d.keys| <= i < |r.keys| :: r.keys[i] in ks
  {
    assert forall x | x in ks[1..] :: x in ks;
    assert r.keys[..|d.keys|] == r.keys[..|d1.keys|][..|d.keys|];
    forall i | |d.keys| <= i < |r.keys|
      ensures r.keys[i] in ks
    {
      if i < |d1.keys| {
        assert r.keys[i] == r.keys[..|d1.keys|][i];
      }
    }
  }

  /** One step of `PutAllOrder`: a new head key sits first among the new keys, and the later keys keep their tail order. */
  lemma OrderStep(d: Dict, d1: Dict, r: Dict, ks: seq<string>, i: int, j: int)
    requires |ks| > 0 && d1.keys == (if ks[0] in d.keys then d.keys else d.keys + [ks[0]])
    requires Distinct(r.keys) && |d1.keys| <= |r.keys| && r.keys[..|d1.keys|] == d1.keys
    requires forall i' | |d1.keys| <= i' < |r.keys| :: r.keys[i'] in ks[1..]
    requires forall i', j' | |d1.keys| <= i' < j' < |r.keys| :: FirstIndex(ks[1..], r.keys[i']) < FirstIndex(ks[1..], r.keys[j'])
    requires |d.keys| <= i < j < |r.keys|
    ensures r.keys[i] in ks && r.keys[j] in ks && FirstIndex(ks, r.keys[i]) < FirstIndex(ks, r.keys[j])
  {
    var k := ks[0];
    // the head key sits before position `i` or at it, so no later key repeats it
    var p :| 0 <= p < |d1.keys| && d1.keys[p] == k && (p < |d.keys| || p == |d.keys|);
    assert r.keys[p] == r.keys[..|d1.keys|][p] == k;
    if p == i {
      assert r.keys[j] != k;
      FirstIndexTail(ks, r.keys[j]);
    } else {
      assert r.keys[i] != k && r.keys[j] != k;
      FirstIndexTail(ks, r.keys[i]);
      FirstIndexTail(ks, r.keys[j]);
    }
  }

  /** Assigning keys leaves an object without keys only when it had none and no key was assigned. */
  lemma PutAllEmpty(d: Dict, ks: seq<string>, v: string)
    requires Valid(d)
    ensures PutAll(d, ks, v).keys == [] <==> d.keys == [] && ks == []
  {
    if ks != [] {
      var d1 := Put(d, ks[0], v);
      PutAllOrder(d1, ks[1..], v);
      assert |d1.keys| > 0;
    } else {
      PutAllOrder(d, ks, v);
    }
  }

  /** A key other than the head of `xs` first occurs one place later in `xs` than in its tail. */
  lemma FirstIndexTail(xs: seq<string>, x: string)
    requires |xs| > 0 && x in xs[1..] && x != xs[0]
    ensures x in xs && FirstIndex(xs, x) == 1 + FirstIndex(xs[1..], x)
  {
  }
}
