/** `lower_bound_median` of src/on_demand/accounts/pull_feed.rs. */
module Medians {
  import opened Machine

  function Insert(x: i128, s: seq<i128>): (r: seq<i128>)
    ensures |r| == |s| + 1
  {
    if s == [] || x <= s[0] then [x] + s else [s[0]] + Insert(x, s[1..])
  }

  /** The ascending arrangement of `s`. */
  function Sort(s: seq<i128>): (r: seq<i128>)
    ensures |r| == |s|
  {
    if s == [] then [] else Insert(s[0], Sort(s[1..]))
  }

  /** The element at index `len / 2` of the sorted list: the upper of the two middle elements of an even list,
      although the source calls it the lower bound. */
  function Median(s: seq<i128>): Option<i128> {
    if s == [] then None else Some(Sort(s)[|s| / 2])
  }

  /** Sorts in place, then indexes. */
  method LowerBoundMedian(numbers: array<i128>) returns (r: Option<i128>)
    modifies numbers
    ensures numbers[..] == Sort(old(numbers[..]))
    ensures r == Median(old(numbers[..]))
  {
    var sorted := Sort(numbers[..]);
    forall i | 0 <= i < numbers.Length {
      numbers[i] := sorted[i];
    }
    var len := numbers.Length;
    if len == 0 {
      return None;
    }
    return Some(numbers[len / 2]);
  }

  // ---- sorting ----

  ghost predicate Ascending(s: seq<i128>) {
    forall i, j :: 0 <= i < j < |s| ==> s[i] <= s[j]
  }

  lemma {:induction false} InsertMultiset(x: i128, s: seq<i128>)
    ensures multiset(Insert(x, s)) == multiset(s) + multiset{x}
  {
    if s != [] && x > s[0] {
      InsertMultiset(x, s[1..]);
      assert s == [s[0]] + s[1..];
    }
  }

  lemma {:induction false} InsertAscending(x: i128, s: seq<i128>)
    requires Ascending(s)
    ensures Ascending(Insert(x, s))
  {
    if s != [] && x > s[0] {
      InsertAscending(x, s[1..]);
      InsertMultiset(x, s[1..]);
      var rest := Insert(x, s[1..]);
      forall i | 0 <= i < |rest|
        ensures s[0] <= rest[i]
      {
        assert rest[i] in multiset(s[1..]) + multiset{x};
      }
    }
  }

  /** `Sort` yields the ascending permutation. */
  lemma {:induction false} SortAscending(s: seq<i128>)
    ensures Ascending(Sort(s)) && multiset(Sort(s)) == multiset(s)
  {
    if s != [] {
      SortAscending(s[1..]);
      InsertAscending(s[0], Sort(s[1..]));
      InsertMultiset(s[0], Sort(s[1..]));
      assert s == [s[0]] + s[1..];
    }
  }

  // ---- ranks ----

  /** How many elements are at most `v`. */
  function CountAtMost(s: seq<i128>, v: int): (n: nat)
    ensures n <= |s|
  {
    if s == [] then 0 else (if s[0] <= v then 1 else 0) + CountAtMost(s[1..], v)
  }

  lemma {:induction false} CountAppend(s: seq<i128>, t: seq<i128>, v: int)
    ensures CountAtMost(s + t, v) == CountAtMost(s, v) + CountAtMost(t, v)
  {
    if s == [] {
      assert s + t == t;
    } else {
      assert (s + t)[1..] == s[1..] + t;
      CountAppend(s[1..], t, v);
    }
  }

  function Without(t: seq<i128>, i: nat): seq<i128>
    requires i < |t|
  {
    t[..i] + t[i + 1..]
  }

  lemma WithoutSplits(t: seq<i128>, i: nat, v: int)
    requires i < |t|
    ensures multiset(t) == multiset(Without(t, i)) + multiset{t[i]}
    ensures CountAtMost(t, v) == CountAtMost(Without(t, i), v) + if t[i] <= v then 1 else 0
  {
    var a, x, b := t[..i], [t[i]], t[i + 1..];
    assert t == a + (x + b);
    CountAppend(a, x + b, v);
    CountAppend(x, b, v);
    CountAppend(a, b, v);
  }

  lemma TailMatchesWithout(s: seq<i128>, t: seq<i128>, i: nat)
    requires s != [] && i < |t| && t[i] == s[0] && multiset(s) == multiset(t)
    ensures multiset(s[1..]) == multiset(Without(t, i))
  {
    WithoutSplits(t, i, 0);
    assert s == [s[0]] + s[1..];
    assert multiset(s[1..]) == multiset(s) - multiset{s[0]};
  }

  /** Counts depend on the multiset only. */
  lemma {:induction false} CountPermutation(s: seq<i128>, t: seq<i128>, v: int)
    requires multiset(s) == multiset(t)
    ensures |s| == |t| && CountAtMost(s, v) == CountAtMost(t, v)
  {
    assert |s| == |multiset(s)| && |t| == |multiset(t)|;
    if s != [] {
      assert s[0] in multiset(s);
      var i :| 0 <= i < |t| && t[i] == s[0];
      TailMatchesWithout(s, t, i);
      WithoutSplits(t, i, v);
      CountPermutation(s[1..], Without(t, i), v);
    }
  }

  /** In an ascending list, element `k` is at most `v` exactly when more than `k` elements are. */
  lemma {:induction false} AscendingRank(s: seq<i128>, k: nat, v: int)
    requires Ascending(s) && k < |s|
    ensures s[k] <= v <==> CountAtMost(s, v) > k
  {
    if |s| > 1 {
      AscendingRank(s[1..], if k == 0 then 0 else k - 1, v);
    }
  }

  /** Characterisation: the median is at most `v` exactly when more than half the elements (rounded down) are. */
  lemma MedianRank(s: seq<i128>, v: int)
    requires s != []
    ensures Median(s).value <= v <==> CountAtMost(s, v) > |s| / 2
  {
    SortAscending(s);
    CountPermutation(Sort(s), s, v);
    AscendingRank(Sort(s), |s| / 2, v);
  }

  // ---- main results ----

  /** The median is a member, with at most len / 2 elements below it and at most len - len / 2 - 1 above. */
  lemma MedianIsOrderStatistic(s: seq<i128>)
    requires s != []
    ensures Median(s).value in s
    ensures CountAtMost(s, Median(s).value - 1) <= |s| / 2
    ensures |s| - CountAtMost(s, Median(s).value) <= |s| - |s| / 2 - 1
  {
    SortAscending(s);
    assert Median(s).value in multiset(Sort(s));
    MedianRank(s, Median(s).value);
    MedianRank(s, Median(s).value - 1);
  }

  /** The order of the submissions does not matter. */
  lemma MedianPermutation(s: seq<i128>, t: seq<i128>)
    requires multiset(s) == multiset(t)
    ensures Median(s) == Median(t)
  {
    CountPermutation(s, t, 0);
    if s != [] {
      MedianAtMost(s, t);
      MedianAtMost(t, s);
    } else {
      assert |multiset(t)| == 0;
    }
  }

  lemma MedianAtMost(s: seq<i128>, t: seq<i128>)
    requires s != [] && t != [] && multiset(s) == multiset(t)
    ensures Median(s).value <= Median(t).value
  {
    var m := Median(t).value;
    CountPermutation(s, t, m);
    MedianRank(s, m);
    MedianRank(t, m);
  }

  /** How many elements lie in [lo, hi]. */
  function CountWithin(s: seq<i128>, lo: int, hi: int): nat {
    if s == [] then 0 else (if lo <= s[0] <= hi then 1 else 0) + CountWithin(s[1..], lo, hi)
  }

  lemma {:induction false} CountWithinBounds(s: seq<i128>, lo: int, hi: int)
    ensures CountWithin(s, lo, hi) <= CountAtMost(s, hi)
    ensures CountWithin(s, lo, hi) + CountAtMost(s, lo - 1) <= |s|
    ensures lo <= hi ==> CountWithin(s, lo, hi) == CountAtMost(s, hi) - CountAtMost(s, lo - 1)
  {
    if s != [] {
      CountWithinBounds(s[1..], lo, hi);
    }
  }

  /** Majority: if more than half the elements lie in [lo, hi], so does the median. */
  lemma MedianMajority(s: seq<i128>, lo: int, hi: int)
    requires 2 * CountWithin(s, lo, hi) > |s|
    ensures Median(s).Some? && lo <= Median(s).value <= hi
  {
    CountWithinBounds(s, lo, hi);
    MedianRank(s, hi);
    MedianRank(s, lo - 1);
  }

  lemma {:induction false} CountMonotone(s: seq<i128>, t: seq<i128>, v: int)
    requires |s| == |t| && forall i :: 0 <= i < |s| ==> s[i] <= t[i]
    ensures CountAtMost(s, v) >= CountAtMost(t, v)
  {
    if s != [] {
      CountMonotone(s[1..], t[1..], v);
    }
  }

  /** Raising any inputs never lowers the median. */
  lemma MedianMonotone(s: seq<i128>, t: seq<i128>)
    requires s != [] && |s| == |t| && forall i :: 0 <= i < |s| ==> s[i] <= t[i]
    ensures Median(s).value <= Median(t).value
  {
    var m := Median(t).value;
    CountMonotone(s, t, m);
    MedianRank(s, m);
    MedianRank(t, m);
  }

  // ---- which middle element? ----

  /** `low` zeros, then ones. */
  function Steps(low: nat, n: nat): (s: seq<i128>)
    requires low <= n
    ensures |s| == n
    ensures forall i :: 0 <= i < n ==> s[i] == if i < low then 0 else 1
  {
    seq(n, i => if i < low then 0 else 1)
  }

  lemma {:induction false} CountSteps(low: nat, n: nat)
    requires low <= n
    ensures CountAtMost(Steps(low, n), 0) == low
    decreases n
  {
    if n > 0 {
      var rest := Steps(if low == 0 then 0 else low - 1, n - 1);
      assert Steps(low, n)[1..] == rest;
      CountSteps(if low == 0 then 0 else low - 1, n - 1);
    }
  }

  /** The name and comment promise the lower middle element; index `len / 2` is that element, for every list of a
      length, exactly when the length is odd. */
  lemma LowerMiddleIff(n: nat)
    requires n > 0
    ensures (forall s: seq<i128> | |s| == n :: Median(s) == Some(Sort(s)[(n - 1) / 2])) <==> n % 2 == 1
  {
    if n % 2 == 0 {
      EvenMiddlesDiffer(n / 2);
      assert (n - 1) / 2 == n / 2 - 1;
    } else {
      assert (n - 1) / 2 == n / 2;
    }
  }

  /** On `half` zeros and `half` ones the two middle elements differ, and the median is the upper one. */
  lemma EvenMiddlesDiffer(half: nat)
    requires half > 0
    ensures var s := Steps(half, 2 * half);
            Median(s).value > 0 >= Sort(s)[half - 1]
  {
    var s := Steps(half, 2 * half);
    CountSteps(half, 2 * half);
    MedianRank(s, 0);
    SortAscending(s);
    CountPermutation(Sort(s), s, 0);
    AscendingRank(Sort(s), half - 1, 0);
  }
}
