/**
 A `defaultdict(int)` used as a counter: integer values under keys, keys
 remembered in the order they were first written, reading a missing key as 0.
 */
module Tallies {

  datatype Tally<K> = Tally(counts: map<K, int>, order: seq<K>)

  /** The keys are the ordered ones, each listed once. */
  ghost predicate Valid<K(!new)>(t: Tally<K>) {
    && (forall i, j :: 0 <= i < j < |t.order| ==> t.order[i] != t.order[j])
    && (forall k :: k in t.counts <==> k in t.order)
  }

  function Empty<K(==,!new)>(): (r: Tally<K>)
    ensures Valid(r) && |r.order| == 0
  {
    Tally(map[], [])
  }

  /** `d[k]` on a `defaultdict(int)`, not counting the key it creates. */
  function Get<K(==,!new)>(t: Tally<K>, k: K): int {
    if k in t.counts then t.counts[k] else 0
  }

  /** `d[k] += n`: a new key goes to the end of the order. */
  function Add<K(==,!new)>(t: Tally<K>, k: K, n: int): (r: Tally<K>)
    requires Valid(t)
    ensures Valid(r)
    ensures Get(r, k) == Get(t, k) + n
    ensures forall o :: o != k ==> Get(r, o) == Get(t, o)
    ensures k in r.counts
    ensures forall o :: o in r.counts <==> o in t.counts || o == k
    ensures r.order == if k in t.counts then t.order else t.order + [k]
  {
    Tally(t.counts[k := Get(t, k) + n], if k in t.counts then t.order else t.order + [k])
  }

  /** The sum of the values under `keys`. */
  function SumOver<K(==,!new)>(keys: seq<K>, t: Tally<K>): int {
    if |keys| == 0 then 0 else SumOver(keys[..|keys| - 1], t) + Get(t, keys[|keys| - 1])
  }

  /** `sum(d.values())` */
  function Total<K(==,!new)>(t: Tally<K>): int {
    SumOver(t.order, t)
  }

  /** Keys that do not change keep their part of a sum. */
  lemma {:induction false} SumOverSame<K(!new)>(keys: seq<K>, t: Tally<K>, u: Tally<K>)
    requires forall i :: 0 <= i < |keys| ==> Get(t, keys[i]) == Get(u, keys[i])
    ensures SumOver(keys, t) == SumOver(keys, u)
  {
    if |keys| > 0 {
      SumOverSame(keys[..|keys| - 1], t, u);
    }
  }

  /** Adding `n` under a key listed once adds `n` to the sum over the list. */
  lemma {:induction false} SumOverBump<K(!new)>(keys: seq<K>, t: Tally<K>, k: K, n: int)
    requires Valid(t)
    requires forall i, j :: 0 <= i < j < |keys| ==> keys[i] != keys[j]
    requires k in keys
    ensures SumOver(keys, Add(t, k, n)) == SumOver(keys, t) + n
  {
    var last := keys[|keys| - 1];
    var init := keys[..|keys| - 1];
    if last == k {
      assert k !in init;
      SumOverSame(init, t, Add(t, k, n));
    } else {
      assert k in init;
      SumOverBump(init, t, k, n);
    }
  }

  /** `d[k] += n` adds `n` to the sum of the values. */
  lemma TotalAdd<K(!new)>(t: Tally<K>, k: K, n: int)
    requires Valid(t)
    ensures Total(Add(t, k, n)) == Total(t) + n
  {
    var r := Add(t, k, n);
    if k in t.counts {
      SumOverBump(t.order, t, k, n);
    } else {
      assert forall i :: 0 <= i < |t.order| ==> t.order[i] != k;
      SumOverSame(t.order, t, r);
      assert r.order[..|r.order| - 1] == t.order;
    }
  }

  // ------------------------------------------------------------ counting a stream

  /** Occurrences of `k` in `keys`. */
  function Occurrences<K(==,!new)>(keys: seq<K>, k: K): nat {
    if |keys| == 0 then 0
    else Occurrences(keys[..|keys| - 1], k) + (if keys[|keys| - 1] == k then 1 else 0)
  }

  /** The keys in the order they first appear, each once. */
  function FirstSeen<K(==,!new)>(keys: seq<K>): seq<K> {
    if |keys| == 0 then []
    else
      var prev := FirstSeen(keys[..|keys| - 1]);
      if keys[|keys| - 1] in prev then prev else prev + [keys[|keys| - 1]]
  }

  /** Counting a stream of keys, one `d[k] += 1` per element, from an empty counter. */
  function Count<K(==,!new)>(keys: seq<K>): (r: Tally<K>)
    ensures Valid(r)
  {
    if |keys| == 0 then Empty() else Add(Count(keys[..|keys| - 1]), keys[|keys| - 1], 1)
  }

  /**
   What counting a stream holds: each key's number of occurrences, exactly
   the keys that occur, ordered by first appearance.
   */
  lemma CountSpec<K(!new)>(keys: seq<K>)
    ensures forall k :: Get(Count(keys), k) == Occurrences(keys, k)
    ensures forall k :: k in Count(keys).counts <==> k in keys
    ensures Count(keys).order == FirstSeen(keys)
  {
    CountGet(keys);
    CountHas(keys);
    CountOrder(keys);
  }

  lemma {:induction false} CountGet<K(!new)>(keys: seq<K>)
    ensures forall k :: Get(Count(keys), k) == Occurrences(keys, k)
  {
    if |keys| > 0 {
      var init := keys[..|keys| - 1];
      CountGet(init);
      assert Count(keys) == Add(Count(init), keys[|keys| - 1], 1);
    }
  }

  lemma {:induction false} CountHas<K(!new)>(keys: seq<K>)
    ensures forall k :: k in Count(keys).counts <==> k in keys
  {
    if |keys| > 0 {
      var init := keys[..|keys| - 1];
      var last := keys[|keys| - 1];
      CountHas(init);
      assert Count(keys) == Add(Count(init), last, 1);
      assert keys == init + [last];
      forall k ensures k in Count(keys).counts <==> k in keys {
        assert k in keys <==> k in init || k == last;
      }
    }
  }

  lemma {:induction false} CountOrder<K(!new)>(keys: seq<K>)
    ensures Count(keys).order == FirstSeen(keys)
  {
    if |keys| > 0 {
      var init := keys[..|keys| - 1];
      CountOrder(init);
      CountHas(init);
      assert Count(keys) == Add(Count(init), keys[|keys| - 1], 1);
    }
  }

  /** Counting a stream sums to its length. */
  lemma {:induction false} CountTotal<K(!new)>(keys: seq<K>)
    ensures Total(Count(keys)) == |keys|
  {
    if |keys| > 0 {
      CountTotal(keys[..|keys| - 1]);
      TotalAdd(Count(keys[..|keys| - 1]), keys[|keys| - 1], 1);
    }
  }

  /** The number of keys is the number of distinct elements. */
  lemma CountKeys<K(!new)>(keys: seq<K>)
    ensures |Count(keys).order| == |set k | k in keys|
  {
    CountSpec(keys);
    var r := Count(keys);
    DistinctCard(r.order);
    assert (set k | k in r.order) == (set k | k in keys);
  }

  /** A list without repeats has as many elements as its set. */
  lemma {:induction false} DistinctCard<K(!new)>(s: seq<K>)
    requires forall i, j :: 0 <= i < j < |s| ==> s[i] != s[j]
    ensures |set k | k in s| == |s|
  {
    if |s| > 0 {
      var init := s[..|s| - 1];
      DistinctCard(init);
      assert (set k | k in s) == (set k | k in init) + {s[|s| - 1]};
      assert s[|s| - 1] !in (set k | k in init);
    }
  }
}
