/**
 * Ordinary objects whose own properties all have integer keys, as the
 * component's `reduce` builds them, and the order in which `Object.values`
 * lists their values.
 */
module JsObject {
  import JsSort

  /** Array indices are the integer keys 0 <= k < 2^32 - 1 (section 6.1.7 of ECMA-262). */
  const ArrayIndexLimit: int := 0xFFFF_FFFF

  predicate IsArrayIndex(k: int) {
    0 <= k < ArrayIndexLimit
  }

  predicate Distinct(ks: seq<int>) {
    forall i, j :: 0 <= i < j < |ks| ==> ks[i] != ks[j]
  }

  /**
   * The own properties of an object: the value under each key and the order
   * in which the keys were created.
   */
  datatype PlainObject<V> = PlainObject(props: map<int, V>, creationOrder: seq<int>) {
    ghost predicate Valid() {
      && Distinct(creationOrder)
      && (forall k :: k in props <==> k in creationOrder)
    }
  }

  function IndexKeys(ks: seq<int>): (r: seq<int>) {
    if ks == [] then []
    else (if IsArrayIndex(ks[0]) then [ks[0]] else []) + IndexKeys(ks[1..])
  }

  function OtherKeys(ks: seq<int>): (r: seq<int>) {
    if ks == [] then []
    else (if IsArrayIndex(ks[0]) then [] else [ks[0]]) + OtherKeys(ks[1..])
  }

  /**
   * OrdinaryOwnPropertyKeys (section 10.1.11.1 of ECMA-262) for integer keys:
   * first the array indices in ascending numeric order, then the remaining
   * keys in the order they were created.
   */
  function OwnKeys(creationOrder: seq<int>): (r: seq<int>)
    ensures multiset(r) == multiset(creationOrder)
  {
    PartitionKeys(creationOrder);
    SortAscending(IndexKeys(creationOrder)) + OtherKeys(creationOrder)
  }

  /** The keys in ascending numeric order: the stable sort by descending negated key. */
  function SortAscending(ks: seq<int>): (r: seq<int>)
    ensures multiset(r) == multiset(ks)
    ensures forall i, j :: 0 <= i < j < |r| ==> r[i] <= r[j]
  {
    var r := JsSort.SortDesc(ks, k => -k);
    assert forall i, j :: 0 <= i < j < |r| ==> (k => -k)(r[i]) >= (k => -k)(r[j]);
    r
  }

  /** The values under `ks`, in that order. */
  function ValuesAt<V>(props: map<int, V>, ks: seq<int>): (r: seq<V>)
    requires forall i :: 0 <= i < |ks| ==> ks[i] in props
    ensures |r| == |ks|
    ensures forall i :: 0 <= i < |ks| ==> r[i] == props[ks[i]]
  {
    if ks == [] then [] else [props[ks[0]]] + ValuesAt(props, ks[1..])
  }

  /** `Object.values(o)`. */
  function Values<V>(o: PlainObject<V>): (r: seq<V>)
    requires o.Valid()
  {
    OwnKeysMembers(o.creationOrder, o.props);
    ValuesAt(o.props, OwnKeys(o.creationOrder))
  }

  /** `Object.values` lists one value per property, and the value of every property. */
  lemma ValuesListsEveryProperty<V>(o: PlainObject<V>)
    requires o.Valid()
    ensures |Values(o)| == |o.creationOrder|
    ensures forall k :: k in o.props ==> o.props[k] in Values(o)
  {
    var keys := OwnKeys(o.creationOrder);
    OwnKeysMembers(o.creationOrder, o.props);
    assert |keys| == |multiset(keys)| == |multiset(o.creationOrder)| == |o.creationOrder|;
    forall k | k in o.props ensures o.props[k] in Values(o) {
      assert k in multiset(keys);
      var i :| 0 <= i < |keys| && keys[i] == k;
      assert Values(o)[i] == o.props[k];
    }
  }

  lemma OwnKeysMembers<V>(ks: seq<int>, props: map<int, V>)
    requires forall k :: k in ks ==> k in props
    ensures forall i :: 0 <= i < |OwnKeys(ks)| ==> OwnKeys(ks)[i] in props
  {
    var r := OwnKeys(ks);
    forall i | 0 <= i < |r| ensures r[i] in props {
      assert r[i] in multiset(r);
      assert r[i] in ks;
    }
  }

  lemma {:induction false} PartitionKeys(ks: seq<int>)
    ensures multiset(IndexKeys(ks)) + multiset(OtherKeys(ks)) == multiset(ks)
  {
    if ks != [] {
      PartitionKeys(ks[1..]);
      assert ks == [ks[0]] + ks[1..];
    }
  }

  lemma {:induction false} DistinctCount(ks: seq<int>, x: int)
    requires Distinct(ks)
    ensures multiset(ks)[x] <= 1
  {
    if ks != [] {
      assert ks == [ks[0]] + ks[1..];
      DistinctCount(ks[1..], x);
      assert ks[0] !in ks[1..];
    }
  }

  lemma PermutationDistinct(a: seq<int>, b: seq<int>)
    requires multiset(a) == multiset(b) && Distinct(a)
    ensures Distinct(b)
  {
    forall i, j | 0 <= i < j < |b| ensures b[i] != b[j] {
      assert b == b[..i] + [b[i]] + b[i+1..j] + [b[j]] + b[j+1..];
      assert multiset(b)[b[i]] >= multiset([b[i]])[b[i]] + multiset([b[j]])[b[i]];
      DistinctCount(a, b[i]);
    }
  }

  /** Enumeration lists every key exactly once. */
  lemma OwnKeysDistinct(ks: seq<int>)
    requires Distinct(ks)
    ensures Distinct(OwnKeys(ks))
  {
    PermutationDistinct(ks, OwnKeys(ks));
  }

  /** When every key is an array index, the keys are listed in strictly ascending order. */
  lemma {:induction false} OwnKeysAscending(ks: seq<int>)
    requires Distinct(ks)
    requires forall k :: k in ks ==> IsArrayIndex(k)
    ensures forall i, j :: 0 <= i < j < |OwnKeys(ks)| ==> OwnKeys(ks)[i] < OwnKeys(ks)[j]
  {
    AllIndexKeys(ks);
    assert OwnKeys(ks) == SortAscending(ks);
    OwnKeysDistinct(ks);
  }

  lemma {:induction false} AllIndexKeys(ks: seq<int>)
    requires forall k :: k in ks ==> IsArrayIndex(k)
    ensures IndexKeys(ks) == ks && OtherKeys(ks) == []
  {
    if ks != [] {
      AllIndexKeys(ks[1..]);
    }
  }
}
