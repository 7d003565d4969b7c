/**
 The orderings the statistics report uses: `sorted(d.items())` (by key) and
 `sorted(d.items(), key=lambda item: item[1], reverse=True)` (by count,
 largest first, ties in the order the keys were first seen, since Python's
 sort is stable and `reverse=True` keeps equal elements in their order).
 */
module Ranking {
  import opened Text
  import opened Tallies

  predicate Distinct(s: seq<string>) {
    forall i, j :: 0 <= i < j < |s| ==> s[i] != s[j]
  }

  /** Where `x` first occurs in `s`. */
  function Pos(s: seq<string>, x: string): (r: nat)
    requires x in s
    ensures r < |s| && s[r] == x
    ensures forall k :: 0 <= k < r ==> s[k] != x
  {
    if s[0] == x then 0 else 1 + Pos(s[1..], x)
  }

  /** A position holding `x` with no `x` before it is `Pos`. */
  lemma PosIs(s: seq<string>, x: string, q: nat)
    requires q < |s| && s[q] == x
    requires forall k :: 0 <= k < q ==> s[k] != x
    ensures Pos(s, x) == q
  {
  }

  /** Appending an element leaves every earlier first position where it was. */
  lemma PosSnoc(s: seq<string>, x: string, a: string)
    requires a in s + [x]
    ensures Pos(s + [x], a) == if a in s then Pos(s, a) else |s|
  {
    if a in s {
      PosIs(s + [x], a, Pos(s, a));
    } else {
      PosIs(s + [x], a, |s|);
    }
  }

  /** `FirstSeenPos` for one pair of keys. */
  lemma FirstSeenBefore(keys: seq<string>, a: string, b: string)
    requires a in keys && b in keys
    ensures a in FirstSeen(keys) && b in FirstSeen(keys)
    ensures Pos(FirstSeen(keys), a) < Pos(FirstSeen(keys), b) <==> Pos(keys, a) < Pos(keys, b)
  {
    FirstSeenPos(keys);
  }

  /**
   The keys in first-seen order are ordered as their first occurrences in
   the stream are.
   */
  lemma {:induction false} FirstSeenPos(keys: seq<string>)
    ensures forall a :: a in FirstSeen(keys) <==> a in keys
    ensures forall a, b :: a in keys && b in keys ==>
              (Pos(FirstSeen(keys), a) < Pos(FirstSeen(keys), b) <==> Pos(keys, a) < Pos(keys, b))
  {
    if |keys| > 0 {
      var init, last := keys[..|keys| - 1], keys[|keys| - 1];
      var prev := FirstSeen(init);
      FirstSeenPos(init);
      assert keys == init + [last];
      forall a | a in keys ensures a in FirstSeen(keys) {
        assert a in init || a == last;
      }
      forall a, b | a in keys && b in keys
        ensures Pos(FirstSeen(keys), a) < Pos(FirstSeen(keys), b) <==> Pos(keys, a) < Pos(keys, b)
      {
        PosSnoc(init, last, a);
        PosSnoc(init, last, b);
        if last !in prev {
          PosSnoc(prev, last, a);
          PosSnoc(prev, last, b);
        }
      }
    }
  }

  // ------------------------------------------------------------ by key

  /** Strictly increasing in Python's string order. */
  predicate Ascending(s: seq<string>) {
    forall i, j :: 0 <= i < j < |s| ==> Less(s[i], s[j])
  }

  /** `x` goes before the first element greater than it. */
  function InsertByKey(sorted: seq<string>, x: string): (r: seq<string>)
    requires Ascending(sorted) && x !in sorted
    ensures Ascending(r)
    ensures multiset(r) == multiset(sorted) + multiset{x}
  {
    var q := KeySlotFrom(sorted, x, 0);
    KeySlot(sorted, x, q);
    InsertedMultiset(sorted, x, q);
    sorted[..q] + [x] + sorted[q..]
  }

  /** The first position from `i` on whose element is greater than `x`, or the end. */
  function KeySlotFrom(sorted: seq<string>, x: string, i: nat): (q: nat)
    requires i <= |sorted|
    requires forall j :: 0 <= j < i ==> !Less(x, sorted[j])
    ensures i <= q <= |sorted|
    ensures forall j :: 0 <= j < q ==> !Less(x, sorted[j])
    ensures q < |sorted| ==> Less(x, sorted[q])
    decreases |sorted| - i
  {
    if i == |sorted| || Less(x, sorted[i]) then i else KeySlotFrom(sorted, x, i + 1)
  }

  /** Putting `x` between the elements below it and those above it keeps the list ascending. */
  lemma KeySlot(sorted: seq<string>, x: string, q: nat)
    requires Ascending(sorted) && x !in sorted && q <= |sorted|
    requires forall i :: 0 <= i < q ==> !Less(x, sorted[i])
    requires q < |sorted| ==> Less(x, sorted[q])
    ensures Ascending(sorted[..q] + [x] + sorted[q..])
  {
    var r := sorted[..q] + [x] + sorted[q..];
    forall i, j | 0 <= i < j < |r| ensures Less(r[i], r[j]) {
      if i < q && j == q {
        LessTotal(sorted[i], x);
      } else if i < q && j > q {
        assert r[i] == sorted[i] && r[j] == sorted[j - 1];
      } else if i == q && j > q + 1 {
        LessTransitive(x, sorted[q], sorted[j - 1]);
      } else if i > q {
        assert r[i] == sorted[i - 1] && r[j] == sorted[j - 1];
      }
    }
  }

  /** Inserting `x` anywhere adds exactly one `x`. */
  lemma InsertedMultiset<T>(s: seq<T>, x: T, q: nat)
    requires q <= |s|
    ensures multiset(s[..q] + [x] + s[q..]) == multiset(s) + multiset{x}
  {
    assert s == s[..q] + s[q..];
  }

  /** `sorted(keys)` for distinct keys. */
  function SortKeys(keys: seq<string>): (r: seq<string>)
    requires Distinct(keys)
    ensures Ascending(r)
    ensures multiset(r) == multiset(keys)
  {
    if |keys| == 0 then []
    else
      var init := keys[..|keys| - 1];
      assert keys == init + [keys[|keys| - 1]];
      var rest := SortKeys(init);
      assert keys[|keys| - 1] !in multiset(rest);
      InsertByKey(rest, keys[|keys| - 1])
  }

  /** A strictly increasing list has no repeats. */
  lemma AscendingDistinct(s: seq<string>)
    requires Ascending(s)
    ensures Distinct(s)
  {
    forall i, j | 0 <= i < j < |s| ensures s[i] != s[j] {
      if s[i] == s[j] {
        LessIrreflexive(s[i]);
      }
    }
  }

  // ------------------------------------------------------------ by count

  /** The positions `0 .. n - 1`. */
  function Range(n: nat): (r: seq<nat>)
    ensures |r| == n && forall k :: 0 <= k < n ==> r[k] == k
  {
    seq(n, k => k)
  }

  /**
   The stable descending order on positions of `seen`: `a` before `b` when its
   key has the larger count, or the same count and it was seen first.
   */
  predicate Before(t: Tally<string>, seen: seq<string>, a: nat, b: nat)
    requires a < |seen| && b < |seen|
  {
    Get(t, seen[a]) > Get(t, seen[b]) || (Get(t, seen[a]) == Get(t, seen[b]) && a < b)
  }

  /** Positions of `seen`, each strictly before the next. */
  predicate Ranked(t: Tally<string>, seen: seq<string>, s: seq<nat>) {
    && (forall k :: 0 <= k < |s| ==> s[k] < |seen|)
    && (forall i, j :: 0 <= i < j < |s| ==> Before(t, seen, s[i], s[j]))
  }

  /** Position `x` goes before the first position with a smaller count, so after its ties. */
  function InsertByCount(t: Tally<string>, seen: seq<string>, sorted: seq<nat>, x: nat): (r: seq<nat>)
    requires x < |seen| && Ranked(t, seen, sorted)
    requires forall k :: 0 <= k < |sorted| ==> sorted[k] < x
    ensures Ranked(t, seen, r)
    ensures multiset(r) == multiset(sorted) + multiset{x}
  {
    var q := CountSlotFrom(t, seen, sorted, x, 0);
    CountSlot(t, seen, sorted, x, q);
    InsertedMultiset(sorted, x, q);
    sorted[..q] + [x] + sorted[q..]
  }

  /** The first position from `i` on whose count is smaller than that of `x`, or the end. */
  function CountSlotFrom(t: Tally<string>, seen: seq<string>, sorted: seq<nat>, x: nat, i: nat): (q: nat)
    requires x < |seen| && i <= |sorted|
    requires forall k :: 0 <= k < |sorted| ==> sorted[k] < |seen|
    requires forall j :: 0 <= j < i ==> Get(t, seen[sorted[j]]) >= Get(t, seen[x])
    ensures i <= q <= |sorted|
    ensures forall j :: 0 <= j < q ==> Get(t, seen[sorted[j]]) >= Get(t, seen[x])
    ensures q < |sorted| ==> Get(t, seen[sorted[q]]) < Get(t, seen[x])
    decreases |sorted| - i
  {
    if i == |sorted| || Get(t, seen[sorted[i]]) < Get(t, seen[x]) then i
    else CountSlotFrom(t, seen, sorted, x, i + 1)
  }

  /**
   Putting `x`, later than every position in `sorted`, after those whose count
   is at least its own and before the rest keeps the list ranked.
   */
  lemma CountSlot(t: Tally<string>, seen: seq<string>, sorted: seq<nat>, x: nat, q: nat)
    requires x < |seen| && Ranked(t, seen, sorted) && q <= |sorted|
    requires forall k :: 0 <= k < |sorted| ==> sorted[k] < x
    requires forall i :: 0 <= i < q ==> Get(t, seen[sorted[i]]) >= Get(t, seen[x])
    requires q < |sorted| ==> Get(t, seen[sorted[q]]) < Get(t, seen[x])
    ensures Ranked(t, seen, sorted[..q] + [x] + sorted[q..])
  {
    var r := sorted[..q] + [x] + sorted[q..];
    assert |r| == |sorted| + 1 && r[q] == x;
    assert forall k :: 0 <= k < q ==> r[k] == sorted[k];
    assert forall k :: q < k < |r| ==> r[k] == sorted[k - 1];
    forall i, j | 0 <= i < j < |r| ensures Before(t, seen, r[i], r[j]) {
      if i == q && j > q + 1 {
        assert Before(t, seen, sorted[q], sorted[j - 1]);
      }
    }
  }

  /** Ranking the positions `0 .. n - 1`. */
  function RankPrefix(t: Tally<string>, seen: seq<string>, n: nat): (r: seq<nat>)
    requires n <= |seen|
    ensures Ranked(t, seen, r)
    ensures multiset(r) == multiset(Range(n))
  {
    if n == 0 then []
    else
      var rest := RankPrefix(t, seen, n - 1);
      assert Range(n) == Range(n - 1) + [n - 1];
      assert forall k :: 0 <= k < |rest| ==> rest[k] in multiset(Range(n - 1));
      InsertByCount(t, seen, rest, n - 1)
  }

  /**
   `sorted(d.items(), key=lambda item: item[1], reverse=True)`: the positions
   of the keys of `t` in first-seen order, rearranged largest count first.
   */
  function RankByCount(t: Tally<string>): (r: seq<nat>)
    ensures Ranked(t, t.order, r)
    ensures multiset(r) == multiset(Range(|t.order|))
  {
    RankPrefix(t, t.order, |t.order|)
  }

  /** The first `n` of a ranking, or all of it. */
  function Top<T>(s: seq<T>, n: nat): (r: seq<T>)
    ensures |r| == if |s| < n then |s| else n
    ensures r == s[..|r|]
  {
    if |s| < n then s else s[..n]
  }
}
