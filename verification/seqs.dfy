/** Sequence helpers shared by the model: concatenating a list of lists, and
    Python's `dict(zip(keys, values))`-style map building where a later key
    overrides an earlier one. */
module Seqs {

  /** The concatenation of a list of lists, in order. */
  function Flatten<T>(xss: seq<seq<T>>): seq<T>
  {
    if |xss| == 0 then [] else xss[0] + Flatten(xss[1..])
  }

  lemma {:induction false} FlattenAppend<T>(xss: seq<seq<T>>, yss: seq<seq<T>>)
    ensures Flatten(xss + yss) == Flatten(xss) + Flatten(yss)
    decreases |xss|
  {
    if |xss| == 0 {
      assert xss + yss == yss;
    } else {
      assert (xss + yss)[1..] == xss[1..] + yss;
      FlattenAppend(xss[1..], yss);
    }
  }

  /** An element of the concatenation is an element of one of the lists,
      and every element of every list is one of the concatenation. */
  lemma {:induction false} FlattenMember<T>(xss: seq<seq<T>>, x: T)
    ensures x in Flatten(xss) <==> exists i :: 0 <= i < |xss| && x in xss[i]
    decreases |xss|
  {
    if |xss| > 0 {
      FlattenMember(xss[1..], x);
      if exists i :: 0 <= i < |xss| && x in xss[i] {
        var i :| 0 <= i < |xss| && x in xss[i];
        if i > 0 {
          assert xss[1..][i - 1] == xss[i];
        }
      }
      if exists i :: 0 <= i < |xss[1..]| && x in xss[1..][i] {
        var i :| 0 <= i < |xss[1..]| && x in xss[1..][i];
        assert xss[1..][i] == xss[i + 1];
      }
    }
  }

  /** Appending two pieces one after the other appends their concatenation. */
  lemma Concat3<T>(w: seq<T>, x: seq<T>, y: seq<T>)
    ensures w + x + y == w + (x + y)
  {
  }

  /** No element occurs twice. */
  predicate Distinct<T(==)>(xs: seq<T>)
  {
    forall i, j :: 0 <= i < j < |xs| ==> xs[i] != xs[j]
  }

  /** The list without repetitions, each element kept at its first occurrence. */
  function Dedup<T(==,!new)>(xs: seq<T>): (r: seq<T>)
    ensures forall x :: x in r <==> x in xs
    ensures Distinct(r)
    decreases |xs|
  {
    if |xs| == 0 then []
    else
      var rest := Dedup(xs[..|xs| - 1]);
      if xs[|xs| - 1] in rest then rest else rest + [xs[|xs| - 1]]
  }

  /** `{keys[i]: values[i] for i in range(len(keys))}`: a later occurrence of
      a key overrides an earlier one. */
  function Zip<K, V>(keys: seq<K>, values: seq<V>): map<K, V>
    requires |keys| == |values|
  {
    if |keys| == 0 then map[]
    else Zip(keys[..|keys| - 1], values[..|keys| - 1])[keys[|keys| - 1] := values[|keys| - 1]]
  }

  /** Index `i` holds the last occurrence of its key. */
  predicate LastOccurrence<K(==)>(keys: seq<K>, i: nat)
    requires i < |keys|
  {
    forall j :: i < j < |keys| ==> keys[j] != keys[i]
  }

  /** The keys of the zipped map are the given keys, and each is mapped to the
      value at its last occurrence. */
  lemma {:induction false} ZipSpec<K, V>(keys: seq<K>, values: seq<V>)
    requires |keys| == |values|
    ensures forall k :: k in Zip(keys, values) <==> k in keys
    ensures forall i :: 0 <= i < |keys| && LastOccurrence(keys, i) ==> Zip(keys, values)[keys[i]] == values[i]
    ensures forall k :: k in Zip(keys, values) ==> Zip(keys, values)[k] in values
    decreases |keys|
  {
    if |keys| > 0 {
      var n := |keys| - 1;
      ZipSpec(keys[..n], values[..n]);
      forall i | 0 <= i < |keys| && LastOccurrence(keys, i)
        ensures Zip(keys, values)[keys[i]] == values[i]
      {
        if i < n {
          assert keys[..n][i] == keys[i];
          assert LastOccurrence(keys[..n], i);
        }
      }
      forall k | k in Zip(keys, values)
        ensures Zip(keys, values)[k] in values
      {
        if k != keys[n] {
          assert Zip(keys, values)[k] == Zip(keys[..n], values[..n])[k];
          assert Zip(keys[..n], values[..n])[k] in values[..n];
        }
      }
      forall k
        ensures k in Zip(keys, values) <==> k in keys
      {
        if k in keys && k != keys[n] {
          var i :| 0 <= i < |keys| && keys[i] == k;
          assert keys[..n][i] == k;
        }
      }
    }
  }

  /** Every key has a last occurrence. */
  lemma {:induction false} LastOccurrenceExists<K>(keys: seq<K>, k: K) returns (i: nat)
    requires k in keys
    ensures i < |keys| && keys[i] == k && LastOccurrence(keys, i)
    decreases |keys|
  {
    var n := |keys| - 1;
    if keys[n] == k {
      i := n;
    } else {
      var j :| 0 <= j < |keys| && keys[j] == k;
      assert keys[..n][j] == k;
      i := LastOccurrenceExists(keys[..n], k);
      assert keys[..n][i] == keys[i];
      forall j | i < j < |keys|
        ensures keys[j] != keys[i]
      {
        if j < n {
          assert keys[..n][j] == keys[j];
        }
      }
    }
  }
}
