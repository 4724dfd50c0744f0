/**
 * The order in which Object.entries and Object.values visit an object whose keys are all
 * array indices: ascending numeric order, whatever the insertion order was.
 */
module ObjectKeys {

  /** One more than the largest array index, 2^32 - 1 (section 6.1.7 of ECMA-262). */
  const ArrayIndexLimit: nat := 0xFFFF_FFFF

  /** A property key that is an array index, the keys visited in ascending order. */
  type Key = k: nat | k < ArrayIndexLimit

  /** Each key is smaller than every later one. */
  predicate StrictlyAscending(ids: seq<Key>)
  {
    forall i, j :: 0 <= i < j < |ids| ==> ids[i] < ids[j]
  }

  /** A set holding `x` has a least element, found by descending from `x`. */
  lemma {:induction false} MinimumBelow(s: set<Key>, x: Key)
    requires x in s
    ensures exists k :: k in s && forall y :: y in s ==> k <= y
    decreases x
  {
    if exists y :: y in s && y < x {
      var y :| y in s && y < x;
      MinimumBelow(s, y);
    }
  }

  /** Every non-empty set of keys has a least element. */
  lemma MinimumExists(s: set<Key>)
    requires s != {}
    ensures exists k :: k in s && forall y :: y in s ==> k <= y
  {
    var x :| x in s;
    MinimumBelow(s, x);
  }

  /** The least key followed by the ascending rest is the ascending list of the whole set. */
  lemma ConsAscending(k: Key, s: set<Key>, rest: seq<Key>)
    requires k in s && forall y :: y in s ==> k <= y
    requires StrictlyAscending(rest) && |rest| == |s - {k}|
    requires forall y :: y in rest <==> y in s - {k}
    ensures StrictlyAscending([k] + rest)
    ensures forall y :: y in [k] + rest <==> y in s
    ensures |[k] + rest| == |s|
  {
    assert forall j :: 0 <= j < |rest| ==> rest[j] in s - {k};
  }

  /** The least element of a non-empty set of keys. */
  function Minimum(s: set<Key>): (k: Key)
    requires s != {}
    ensures k in s && forall y :: y in s ==> k <= y
  {
    MinimumExists(s);
    var k :| k in s && forall y :: y in s ==> k <= y;
    k
  }

  /**
   * The keys of an object whose keys are all array indices, in the order Object.entries
   * visits them: ascending.
   */
  function AscendingKeys(s: set<Key>): (r: seq<Key>)
    ensures StrictlyAscending(r)
    ensures forall k :: k in r <==> k in s
    ensures |r| == |s|
    decreases |s|
  {
    if s == {} then []
    else
      var k := Minimum(s);
      var rest := AscendingKeys(s - {k});
      ConsAscending(k, s, rest);
      [k] + rest
  }

  /** The keys occurring in a list. */
  function Elements(ids: seq<Key>): (r: set<Key>)
    ensures forall k :: k in r <==> k in ids
  {
    if ids == [] then {} else Elements(ids[..|ids| - 1]) + {ids[|ids| - 1]}
  }

  /** A list in strictly ascending order has as many elements as it has distinct ones. */
  lemma {:induction false} AscendingCardinality(ids: seq<Key>)
    requires StrictlyAscending(ids)
    ensures |Elements(ids)| == |ids|
  {
    if ids != [] {
      var n := |ids| - 1;
      AscendingCardinality(ids[..n]);
      assert ids[n] !in ids[..n];
    }
  }

  /** Object.values of an object whose keys are all array indices: the values by ascending key. */
  function Values<T(==,!new)>(m: map<Key, T>): (r: seq<T>)
    ensures |r| == |m.Keys|
    ensures forall x :: x in r <==> x in m.Values
    ensures forall i :: 0 <= i < |r| ==> r[i] == m[AscendingKeys(m.Keys)[i]]
  {
    var keys := AscendingKeys(m.Keys);
    var r := seq(|keys|, i requires 0 <= i < |keys| => m[keys[i]]);
    ValuesCover(m, keys, r);
    r
  }

  /** Listing the values of every key in turn lists exactly the values of the map. */
  lemma ValuesCover<T(!new)>(m: map<Key, T>, keys: seq<Key>, r: seq<T>)
    requires forall k :: k in keys <==> k in m
    requires |r| == |keys| && forall i :: 0 <= i < |keys| ==> r[i] == m[keys[i]]
    ensures forall x :: x in r <==> x in m.Values
  {
    forall x | x in m.Values ensures x in r {
      var k :| k in m && m[k] == x;
      var i :| 0 <= i < |keys| && keys[i] == k;
      assert r[i] == x;
    }
  }
}
