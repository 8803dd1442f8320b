/**
 The grouping step of the pipeline (GroupAdditionalTextsByAttributeContext):
 a sequence of (key, value) pairs becomes a dictionary from each key to the
 values that came with it, in input order.
 */
module Grouping {

  /** The keys that occur in `pairs`. */
  function KeysOf<K, V>(pairs: seq<(K, V)>): set<K>
  {
    set i | 0 <= i < |pairs| :: pairs[i].0
  }

  /** Reference definition: the values paired with `k`, in input order. */
  function ValuesFor<K(==), V>(pairs: seq<(K, V)>, k: K): seq<V>
  {
    if pairs == [] then []
    else (if pairs[0].0 == k then [pairs[0].1] else []) + ValuesFor(pairs[1..], k)
  }

  /** `m[k]`, or the empty sequence when `k` is not a key: the lookup's `TryGetValue ... : Empty`. */
  function Lookup<K(==), V>(m: map<K, seq<V>>, k: K): (r: seq<V>)
    ensures k in m ==> r == m[k]
    ensures k !in m ==> r == []
  {
    if k in m then m[k] else []
  }

  /** One turn of the loop: the builder for the pair's key, created on first sight, gets the value. */
  function Add<K(==), V>(grouped: map<K, seq<V>>, pair: (K, V)): map<K, seq<V>>
  {
    grouped[pair.0 := Lookup(grouped, pair.0) + [pair.1]]
  }

  /** The `foreach` over the pairs, from the dictionary built so far. */
  function GroupLoop<K(==), V>(grouped: map<K, seq<V>>, pairs: seq<(K, V)>): map<K, seq<V>>
    decreases |pairs|
  {
    if pairs == [] then grouped else GroupLoop(Add(grouped, pairs[0]), pairs[1..])
  }

  /** GroupAdditionalTextsByAttributeContext. */
  function GroupByKey<K(==), V>(pairs: seq<(K, V)>): map<K, seq<V>>
  {
    GroupLoop(map[], pairs)
  }

  // ---------------------------------------------------------------------
  // Properties
  // ---------------------------------------------------------------------

  lemma {:induction false} ValuesForAppend<K, V>(a: seq<(K, V)>, b: seq<(K, V)>, k: K)
    ensures ValuesFor(a + b, k) == ValuesFor(a, k) + ValuesFor(b, k)
  {
    if a == [] {
      assert a + b == b;
    } else {
      assert (a + b)[0] == a[0];
      assert (a + b)[1..] == a[1..] + b;
      ValuesForAppend(a[1..], b, k);
      var h: seq<V> := if a[0].0 == k then [a[0].1] else [];
      assert ValuesFor(a + b, k) == h + (ValuesFor(a[1..], k) + ValuesFor(b, k));
      assert h + (ValuesFor(a[1..], k) + ValuesFor(b, k)) == (h + ValuesFor(a[1..], k)) + ValuesFor(b, k);
    }
  }

  lemma KeysOfCons<K, V>(pairs: seq<(K, V)>)
    requires pairs != []
    ensures KeysOf(pairs) == {pairs[0].0} + KeysOf(pairs[1..])
  {
    forall x | x in KeysOf(pairs) ensures x in {pairs[0].0} + KeysOf(pairs[1..]) {
      var i :| 0 <= i < |pairs| && pairs[i].0 == x;
      if i > 0 {
        assert pairs[1..][i - 1] == pairs[i];
      }
    }
    forall x | x in KeysOf(pairs[1..]) ensures x in KeysOf(pairs) {
      var i :| 0 <= i < |pairs[1..]| && pairs[1..][i].0 == x;
      assert pairs[i + 1] == pairs[1..][i];
    }
  }

  /** One turn of the loop appends the pair's value under its own key and nowhere else. */
  lemma AddLookup<K, V>(grouped: map<K, seq<V>>, pair: (K, V), k: K)
    ensures k == pair.0 ==> Lookup(Add(grouped, pair), k) == Lookup(grouped, k) + [pair.1]
    ensures k != pair.0 ==> Lookup(Add(grouped, pair), k) == Lookup(grouped, k)
  {
  }

  lemma ValuesForCons<K, V>(pairs: seq<(K, V)>, k: K)
    requires pairs != []
    ensures pairs[0].0 == k ==> ValuesFor(pairs, k) == [pairs[0].1] + ValuesFor(pairs[1..], k)
    ensures pairs[0].0 != k ==> ValuesFor(pairs, k) == ValuesFor(pairs[1..], k)
  {
  }

  lemma AppendShift<V>(before: seq<V>, after: seq<V>, rest: seq<V>, whole: seq<V>, v: V, same: bool)
    requires same ==> after == before + [v] && whole == [v] + rest
    requires !same ==> after == before && whole == rest
    ensures after + rest == before + whole
  {
    if same {
      assert (before + [v]) + rest == before + ([v] + rest);
    }
  }

  /** One turn of the loop puts the pair's value after those already under its key. */
  lemma AddStep<K, V>(grouped: map<K, seq<V>>, pairs: seq<(K, V)>, k: K)
    requires pairs != []
    ensures Lookup(Add(grouped, pairs[0]), k) + ValuesFor(pairs[1..], k)
         == Lookup(grouped, k) + ValuesFor(pairs, k)
  {
    AddLookup(grouped, pairs[0], k);
    ValuesForCons(pairs, k);
    AppendShift(Lookup(grouped, k), Lookup(Add(grouped, pairs[0]), k), ValuesFor(pairs[1..], k),
      ValuesFor(pairs, k), pairs[0].1, pairs[0].0 == k);
  }

  /** A key has values exactly when it occurs. */
  lemma {:induction false} ValuesForEmpty<K, V>(pairs: seq<(K, V)>, k: K)
    ensures ValuesFor(pairs, k) == [] <==> k !in KeysOf(pairs)
  {
    if pairs != [] {
      ValuesForEmpty(pairs[1..], k);
      KeysOfCons(pairs);
    }
  }

  /** The loop adds, under every key, the values paired with it, after those already there. */
  lemma {:induction false} GroupLoopContents<K, V>(grouped: map<K, seq<V>>, pairs: seq<(K, V)>)
    ensures var r := GroupLoop(grouped, pairs);
      && r.Keys == grouped.Keys + KeysOf(pairs)
      && forall k :: Lookup(r, k) == Lookup(grouped, k) + ValuesFor(pairs, k)
    decreases |pairs|
  {
    var r := GroupLoop(grouped, pairs);
    if pairs == [] {
      forall k
        ensures Lookup(r, k) == Lookup(grouped, k) + ValuesFor(pairs, k)
      {
        assert Lookup(grouped, k) + [] == Lookup(grouped, k);
      }
      assert KeysOf(pairs) == {};
    } else {
      var next := Add(grouped, pairs[0]);
      GroupLoopContents(next, pairs[1..]);
      KeysOfCons(pairs);
      forall k
        ensures Lookup(r, k) == Lookup(grouped, k) + ValuesFor(pairs, k)
      {
        AddStep(grouped, pairs, k);
      }
    }
  }

  /** The grouped dictionary has a key for every key that occurs and no other, and under each
      key the values paired with it, in input order. */
  lemma GroupByKeyContents<K, V>(pairs: seq<(K, V)>)
    ensures var r := GroupByKey(pairs);
      && r.Keys == KeysOf(pairs)
      && forall k | k in r :: r[k] == ValuesFor(pairs, k)
  {
    var r := GroupByKey(pairs);
    GroupLoopContents(map[], pairs);
    forall k | k in r
      ensures r[k] == ValuesFor(pairs, k)
    {
      assert Lookup(r, k) == Lookup(map[], k) + ValuesFor(pairs, k);
    }
  }

  /** Looking up any key, present or not, gives the values paired with it. */
  lemma LookupGroupByKey<K, V>(pairs: seq<(K, V)>, k: K)
    ensures Lookup(GroupByKey(pairs), k) == ValuesFor(pairs, k)
  {
    GroupLoopContents(map[], pairs);
  }

  // ---------------------------------------------------------------------
  // Nothing is lost or duplicated
  // ---------------------------------------------------------------------

  /** The total number of values in a dictionary of sequences. */
  ghost function SumLengths<K, V>(m: map<K, seq<V>>): nat
    decreases |m|
  {
    if m == map[] then 0
    else
      var k :| k in m;
      assert |m - {k}| < |m| by { assert (m - {k}).Keys < m.Keys; }
      |m[k]| + SumLengths(m - {k})
  }

  /** The sum does not depend on which key is taken out first. */
  lemma {:induction false} SumLengthsAt<K, V>(m: map<K, seq<V>>, k: K)
    requires k in m
    ensures SumLengths(m) == |m[k]| + SumLengths(m - {k})
    decreases |m|
  {
    var j :| j in m && SumLengths(m) == |m[j]| + SumLengths(m - {j});
    if j != k {
      assert |m - {j}| < |m| by { assert (m - {j}).Keys < m.Keys; }
      assert |m - {k}| < |m| by { assert (m - {k}).Keys < m.Keys; }
      SumLengthsAt(m - {j}, k);
      SumLengthsAt(m - {k}, j);
      assert m - {j} - {k} == m - {k} - {j};
    }
  }

  /** Each turn of the loop stores exactly one more value. */
  lemma SumLengthsAdd<K, V>(grouped: map<K, seq<V>>, pair: (K, V))
    ensures SumLengths(Add(grouped, pair)) == SumLengths(grouped) + 1
  {
    var next := Add(grouped, pair);
    SumLengthsAt(next, pair.0);
    if pair.0 in grouped {
      SumLengthsAt(grouped, pair.0);
      assert next - {pair.0} == grouped - {pair.0};
    } else {
      assert next - {pair.0} == grouped;
    }
  }

  lemma {:induction false} SumLengthsGroupLoop<K, V>(grouped: map<K, seq<V>>, pairs: seq<(K, V)>)
    ensures SumLengths(GroupLoop(grouped, pairs)) == SumLengths(grouped) + |pairs|
    decreases |pairs|
  {
    if pairs != [] {
      SumLengthsAdd(grouped, pairs[0]);
      SumLengthsGroupLoop(Add(grouped, pairs[0]), pairs[1..]);
    }
  }

  /** Grouping neither loses nor duplicates a value: the groups hold as many values as there
      were pairs. */
  lemma GroupByKeyKeepsEverything<K, V>(pairs: seq<(K, V)>)
    ensures SumLengths(GroupByKey(pairs)) == |pairs|
  {
    SumLengthsGroupLoop(map[], pairs);
  }
}
