/**
 * The part of ECMAScript object semantics that the book controller relies on:
 * the order in which `Object.values` lists the values of a plain object whose
 * keys are array indices. Section 10.1.11.1 of ECMA-262 (2022 edition),
 * OrdinaryOwnPropertyKeys, lists array-index keys first, in ascending numeric
 * order, whatever the order in which they were inserted.
 */
module JsObject {

  /** A property key that is an array index: a canonical numeric string below 2^32 - 1. */
  type ArrayIndex = k: nat | k < 0xFFFF_FFFF

  ghost predicate StrictlyAscending(s: seq<ArrayIndex>) {
    forall i, j :: 0 <= i < j < |s| ==> s[i] < s[j]
  }

  /** `k` is the least element of `keys`. */
  predicate IsLeast(k: ArrayIndex, keys: set<ArrayIndex>) {
    k in keys && forall j :: j in keys ==> k <= j
  }

  lemma {:induction false} LeastExists(keys: set<ArrayIndex>)
    requires keys != {}
    ensures exists k :: IsLeast(k, keys)
    decreases |keys|
  {
    var x :| x in keys;
    var rest := keys - {x};
    if rest == {} {
      assert keys == {x};
      assert IsLeast(x, keys);
    } else {
      LeastExists(rest);
      var m :| IsLeast(m, rest);
      assert forall j :: j in keys ==> j == x || j in rest;
      if x < m {
        assert IsLeast(x, keys);
      } else {
        assert IsLeast(m, keys);
      }
    }
  }

  /** The smallest key of a non-empty key set. */
  function Least(keys: set<ArrayIndex>): (k: ArrayIndex)
    requires keys != {}
    ensures IsLeast(k, keys)
  {
    LeastExists(keys);
    var k :| IsLeast(k, keys);
    k
  }

  /** The own property keys of an object whose keys are all array indices, in the order the standard lists them. */
  function OwnKeys(keys: set<ArrayIndex>): (r: seq<ArrayIndex>)
    ensures StrictlyAscending(r)
    ensures forall i :: 0 <= i < |r| ==> r[i] in keys
    ensures forall k :: k in keys ==> k in r
    decreases |keys|
  {
    if keys == {} then []
    else
      var k := Least(keys);
      [k] + OwnKeys(keys - {k})
  }

  /** `Object.values(o)` for an object `o` with array-index keys, modelled as a map from key to value. */
  function Values<V>(o: map<ArrayIndex, V>): (r: seq<V>)
    ensures |r| == |OwnKeys(o.Keys)|
    ensures forall i :: 0 <= i < |r| ==> OwnKeys(o.Keys)[i] in o && r[i] == o[OwnKeys(o.Keys)[i]]
  {
    var ks := OwnKeys(o.Keys);
    Listed(ks, o.Keys);
    ValuesAt(o, ks)
  }

  lemma Listed(ks: seq<ArrayIndex>, keys: set<ArrayIndex>)
    requires forall i :: 0 <= i < |ks| ==> ks[i] in keys
    ensures forall k :: k in ks ==> k in keys
  {
  }

  /** The values of `o` at the keys `ks`, in the order of `ks`. */
  function ValuesAt<V>(o: map<ArrayIndex, V>, ks: seq<ArrayIndex>): (r: seq<V>)
    requires forall k :: k in ks ==> k in o
    ensures |r| == |ks|
    ensures forall i :: 0 <= i < |r| ==> r[i] == o[ks[i]]
  {
    if ks == [] then [] else [o[ks[0]]] + ValuesAt(o, ks[1..])
  }
}
