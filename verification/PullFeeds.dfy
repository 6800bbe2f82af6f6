/** `PullFeedAccountData` of src/on_demand/accounts/pull_feed.rs: which submissions count, and their median. */
module PullFeeds {
  import opened Machine
  import opened Medians
  import D = Decimals

  const SUBMISSIONS := 32
  const PRECISION: u32 := 18

  datatype OracleSubmission = OracleSubmission(oracle: Bytes32, slot: u64, landedAt: u64, value: i128) {
    predicate IsEmpty() {
      slot == 0
    }
  }

  type Submissions = s: seq<OracleSubmission> | |s| == SUBMISSIONS
    witness seq(SUBMISSIONS, _ => OracleSubmission(seq(32, _ => 0), 0, 0, 0))

  type Timestamps = t: seq<i64> | |t| == SUBMISSIONS witness seq(SUBMISSIONS, _ => 0)

  datatype PullFeed = PullFeed(submissions: Submissions, submissionTimestamps: Timestamps, maxStaleness: u32)

  // ---- iterator chains ----

  /** `take_while(|s| !s.is_empty())` */
  function TakeFilled(s: seq<OracleSubmission>): seq<OracleSubmission> {
    if s == [] || s[0].IsEmpty() then [] else [s[0]] + TakeFilled(s[1..])
  }

  /** `filter(|s| s.slot >= threshold)` */
  function FilterFresh(s: seq<OracleSubmission>, threshold: u64): seq<OracleSubmission> {
    if s == [] then []
    else
      var front, last := FilterFresh(s[..|s| - 1], threshold), s[|s| - 1];
      if last.slot >= threshold then front + [last] else front
  }

  function Values(s: seq<OracleSubmission>): (r: seq<i128>)
    ensures |r| == |s|
  {
    seq(|s|, i requires 0 <= i < |s| => s[i].value)
  }

  /** The samples `get_value` and `valid_samples` collect. The threshold is computed inside the filter, so an
      empty prefix never evaluates it. */
  function Samples(checked: bool, subs: Submissions, clockSlot: u64, maxStaleness: u64)
    : Outcome<seq<OracleSubmission>>
  {
    var filled := TakeFilled(subs);
    if filled == [] then Ok([])
    else
      match SubU64(checked, clockSlot, maxStaleness)
      case None => Panic(Overflow)
      case Some(threshold) => Ok(FilterFresh(filled, threshold))
  }

  /** `Decimal::from_i128_with_scale` at the feed precision: a mantissa beyond 96 bits panics. */
  function ToDecimal(value: i128): Outcome<D.Decimal> {
    if -TWO_96 < value < TWO_96 then Ok(D.Decimal(value, PRECISION)) else Panic(Overflow)
  }

  function GetValue(
    checked: bool, feed: PullFeed, clockSlot: u64, maxStaleness: u64, minSamples: u32, onlyPositive: bool)
    : Outcome<D.Decimal>
  {
    var samples :- Samples(checked, feed.submissions, clockSlot, maxStaleness);
    if |samples| < minSamples then Bail(NotEnoughSamples)
    else
      match Median(Values(samples))
      case None => Bail(NotEnoughSamples)
      case Some(median) =>
        if onlyPositive && median <= 0 then Bail(IllegalFeedValue) else ToDecimal(median)
  }

  function ValidSamples(checked: bool, feed: PullFeed, clockSlot: u64): Outcome<seq<OracleSubmission>> {
    Samples(checked, feed.submissions, clockSlot, feed.maxStaleness)
  }

  // ---- which submissions are fresh ----

  /** Submission `i` comes before the first empty one. */
  ghost predicate InPrefix(subs: seq<OracleSubmission>, i: int) {
    0 <= i < |subs| && forall j :: 0 <= j <= i ==> subs[j].slot != 0
  }

  /** The indices of the non-empty prefix at or after `threshold`. */
  ghost function FreshIndices(subs: seq<OracleSubmission>, threshold: int): set<int> {
    set i | 0 <= i < |subs| && InPrefix(subs, i) && subs[i].slot >= threshold
  }

  /** Those among them whose value is at most `v`. */
  ghost function FreshAtMost(subs: seq<OracleSubmission>, threshold: int, v: int): set<int> {
    set i | i in FreshIndices(subs, threshold) && subs[i].value <= v
  }

  lemma InPrefixTail(s: seq<OracleSubmission>, i: nat)
    requires 0 < i < |s| && !s[0].IsEmpty()
    ensures InPrefix(s, i) <==> InPrefix(s[1..], i - 1)
  {
  }

  lemma {:induction false} TakeFilledIsPrefix(s: seq<OracleSubmission>)
    ensures TakeFilled(s) <= s
    ensures forall i :: 0 <= i < |s| ==> (InPrefix(s, i) <==> i < |TakeFilled(s)|)
    ensures forall i :: 0 <= i < |TakeFilled(s)| ==> !TakeFilled(s)[i].IsEmpty()
  {
    if s != [] && !s[0].IsEmpty() {
      TakeFilledIsPrefix(s[1..]);
      forall i | 0 <= i < |s|
        ensures InPrefix(s, i) <==> i < |TakeFilled(s)|
      {
        if i > 0 {
          InPrefixTail(s, i);
        }
      }
    }
  }

  /** Indices of a list selected by slot and by value. */
  ghost function Selected(p: seq<OracleSubmission>, threshold: int, v: int): set<int> {
    set i | 0 <= i < |p| && p[i].slot >= threshold && p[i].value <= v
  }

  lemma SelectedNext(p: seq<OracleSubmission>, threshold: int, v: int)
    requires p != []
    ensures var n := |p| - 1;
            |Selected(p, threshold, v)|
            == |Selected(p[..n], threshold, v)| + if p[n].slot >= threshold && p[n].value <= v then 1 else 0
  {
    var n := |p| - 1;
    assert Selected(p, threshold, v)
        == Selected(p[..n], threshold, v) + (if p[n].slot >= threshold && p[n].value <= v then {n} else {});
  }

  /** The filter keeps one element per selected index. */
  lemma {:induction false} FilterCounts(p: seq<OracleSubmission>, threshold: u64, v: int)
    ensures CountAtMost(Values(FilterFresh(p, threshold)), v) == |Selected(p, threshold, v)|
  {
    if p != [] {
      var n := |p| - 1;
      FilterCounts(p[..n], threshold, v);
      SelectedNext(p, threshold, v);
      if p[n].slot >= threshold {
        var front := FilterFresh(p[..n], threshold);
        assert Values(front + [p[n]]) == Values(front) + [p[n].value];
        CountAppend(Values(front), [p[n].value], v);
      }
    }
  }

  /** The samples taken, counted through indices of the account's array. */
  lemma SamplesCount(subs: Submissions, threshold: u64, v: int)
    ensures CountAtMost(Values(FilterFresh(TakeFilled(subs), threshold)), v) == |FreshAtMost(subs, threshold, v)|
  {
    var p := TakeFilled(subs);
    TakeFilledIsPrefix(subs);
    FilterCounts(p, threshold, v);
    assert Selected(p, threshold, v) == FreshAtMost(subs, threshold, v);
  }

  lemma {:induction false} AllAtMost(s: seq<i128>, v: int)
    requires forall i :: 0 <= i < |s| ==> s[i] <= v
    ensures CountAtMost(s, v) == |s|
  {
    if s != [] {
      AllAtMost(s[1..], v);
    }
  }

  lemma SamplesLength(subs: Submissions, threshold: u64)
    ensures |FilterFresh(TakeFilled(subs), threshold)| == |FreshIndices(subs, threshold)|
  {
    SamplesCount(subs, threshold, TWO_127);
    AllAtMost(Values(FilterFresh(TakeFilled(subs), threshold)), TWO_127);
    assert FreshAtMost(subs, threshold, TWO_127) == FreshIndices(subs, threshold);
  }

  // ---- get_value ----

  /** The median of the fresh submissions. */
  function FreshMedian(subs: Submissions, threshold: u64): Option<i128> {
    Median(Values(FilterFresh(TakeFilled(subs), threshold)))
  }

  /** The fresh median, stated on the account's array: it is at most `v` exactly when more than half (rounded
      down) of the fresh submissions are. */
  lemma FreshMedianRank(subs: Submissions, threshold: u64, v: int)
    requires FreshIndices(subs, threshold) != {}
    ensures FreshMedian(subs, threshold).Some?
    ensures FreshMedian(subs, threshold).value <= v
       <==> |FreshAtMost(subs, threshold, v)| > |FreshIndices(subs, threshold)| / 2
  {
    SamplesLength(subs, threshold);
    SamplesCount(subs, threshold, v);
    MedianRank(Values(FilterFresh(TakeFilled(subs), threshold)), v);
  }

  /** The wrapping difference `clockSlot - maxStaleness`; without wrap-around where the window starts at slot 0
      or later. */
  function Threshold(clockSlot: u64, maxStaleness: u64): (r: u64)
    ensures (r + maxStaleness) % TWO_64 == clockSlot
  {
    if clockSlot >= maxStaleness then clockSlot - maxStaleness else clockSlot - maxStaleness + TWO_64
  }

  /** Exact outcome of `get_value` for every feed and every window. A build with overflow checks panics when the
      window reaches back before slot 0 and there is a submission to compare; otherwise the call fails for want of
      samples exactly when fewer than max(1, min_samples) submissions are fresh, and else the value is the fresh
      median, rejected when it must be positive and is not, or does not fit a decimal. */
  lemma GetValueExact(
    checked: bool, feed: PullFeed, clockSlot: u64, maxStaleness: u64, minSamples: u32, onlyPositive: bool)
    ensures var threshold := Threshold(clockSlot, maxStaleness);
            var live := |FreshIndices(feed.submissions, threshold)|;
            var median := FreshMedian(feed.submissions, threshold);
            var r := GetValue(checked, feed, clockSlot, maxStaleness, minSamples, onlyPositive);
            if checked && clockSlot < maxStaleness && feed.submissions[0].slot != 0 then r == Panic(Overflow)
            else if live < 1 || live < minSamples then r == Bail(NotEnoughSamples)
            else
              median.Some?
              && r == if onlyPositive && median.value <= 0 then Bail(IllegalFeedValue)
                      else if -TWO_96 < median.value < TWO_96 then Ok(D.Decimal(median.value, 18))
                      else Panic(Overflow)
  {
    SamplesLength(feed.submissions, Threshold(clockSlot, maxStaleness));
    if TakeFilled(feed.submissions) == [] {
      assert FilterFresh(TakeFilled(feed.submissions), Threshold(clockSlot, maxStaleness)) == [];
    }
  }

  /** Those of the fresh submissions whose value lies in [lo, hi]. */
  ghost function FreshWithin(subs: seq<OracleSubmission>, threshold: int, lo: int, hi: int): set<int> {
    set i | i in FreshIndices(subs, threshold) && lo <= subs[i].value <= hi
  }

  /** A minority cannot move the reported value out of the range of the others: if more than half of the fresh
      submissions lie in [lo, hi], so does any value `get_value` returns. */
  lemma GetValueMajority(
    checked: bool, feed: PullFeed, clockSlot: u64, maxStaleness: u64, minSamples: u32, onlyPositive: bool,
    lo: int, hi: int)
    requires GetValue(checked, feed, clockSlot, maxStaleness, minSamples, onlyPositive).Ok?
    requires var t := Threshold(clockSlot, maxStaleness);
             2 * |FreshWithin(feed.submissions, t, lo, hi)| > |FreshIndices(feed.submissions, t)|
    ensures lo <= GetValue(checked, feed, clockSlot, maxStaleness, minSamples, onlyPositive).value.mantissa <= hi
  {
    GetValueExact(checked, feed, clockSlot, maxStaleness, minSamples, onlyPositive);
    var subs, t := feed.submissions, Threshold(clockSlot, maxStaleness);
    MajorityCounts(subs, t, lo, hi);
    FreshMedianRank(subs, t, hi);
    FreshMedianRank(subs, t, lo - 1);
  }

  /** A majority within [lo, hi] is a majority at most `hi`, and leaves no majority below `lo`. */
  lemma MajorityCounts(subs: seq<OracleSubmission>, threshold: int, lo: int, hi: int)
    requires 2 * |FreshWithin(subs, threshold, lo, hi)| > |FreshIndices(subs, threshold)|
    ensures FreshIndices(subs, threshold) != {}
    ensures |FreshAtMost(subs, threshold, hi)| > |FreshIndices(subs, threshold)| / 2
    ensures |FreshAtMost(subs, threshold, lo - 1)| <= |FreshIndices(subs, threshold)| / 2
  {
    var within, all := FreshWithin(subs, threshold, lo, hi), FreshIndices(subs, threshold);
    var below := FreshAtMost(subs, threshold, lo - 1);
    SubsetSize(within, FreshAtMost(subs, threshold, hi));
    DisjointSize(within, below, all);
  }

  lemma DisjointSize(a: set<int>, b: set<int>, all: set<int>)
    requires a !! b && a <= all && b <= all
    ensures |a| + |b| <= |all|
  {
    assert |a + b| == |a| + |b|;
    SubsetSize(a + b, all);
  }

  /** Widening the staleness window only adds fresh submissions. */
  lemma WiderWindowAddsSamples(subs: Submissions, clockSlot: u64, narrow: u64, wide: u64)
    requires narrow <= wide <= clockSlot
    ensures FreshIndices(subs, clockSlot - narrow) <= FreshIndices(subs, clockSlot - wide)
    ensures |FreshIndices(subs, clockSlot - narrow)| <= |FreshIndices(subs, clockSlot - wide)|
  {
    SubsetSize(FreshIndices(subs, clockSlot - narrow), FreshIndices(subs, clockSlot - wide));
  }

  lemma {:induction false} SubsetSize(a: set<int>, b: set<int>)
    requires a <= b
    ensures |a| <= |b|
  {
    assert b == a + (b - a);
  }

  /** A wider window never turns a value into a shortage of samples. */
  lemma WiderWindowKeepsEnough(
    checked: bool, feed: PullFeed, clockSlot: u64, narrow: u64, wide: u64, minSamples: u32, onlyPositive: bool)
    requires narrow <= wide <= clockSlot
    requires GetValue(checked, feed, clockSlot, wide, minSamples, onlyPositive) == Bail(NotEnoughSamples)
    ensures GetValue(checked, feed, clockSlot, narrow, minSamples, onlyPositive) == Bail(NotEnoughSamples)
  {
    GetValueExact(checked, feed, clockSlot, narrow, minSamples, onlyPositive);
    GetValueExact(checked, feed, clockSlot, wide, minSamples, onlyPositive);
    WiderWindowAddsSamples(feed.submissions, clockSlot, narrow, wide);
  }

  /** `get_value` considers the submissions of the last `maxStaleness` slots, as documented, for every feed. */
  ghost predicate WindowAsDocumented(checked: bool, clockSlot: u64, maxStaleness: u64) {
    forall subs: Submissions ::
      Samples(checked, subs, clockSlot, maxStaleness)
      == Ok(FilterFresh(TakeFilled(subs), if clockSlot >= maxStaleness then clockSlot - maxStaleness else 0))
  }

  /** The documented window is honoured exactly when it does not reach back before slot 0. Otherwise a build with
      overflow checks panics and one without wraps the threshold to a far future slot; only the full-range
      window at clock slot 0 wraps to a harmless threshold. */
  lemma WindowAsDocumentedIff(checked: bool, clockSlot: u64, maxStaleness: u64)
    ensures WindowAsDocumented(checked, clockSlot, maxStaleness) <==>
              clockSlot >= maxStaleness || (!checked && maxStaleness - clockSlot == TWO_64 - 1)
  {
    if clockSlot >= maxStaleness {
      forall subs: Submissions
        ensures Samples(checked, subs, clockSlot, maxStaleness)
             == Ok(FilterFresh(TakeFilled(subs), clockSlot - maxStaleness))
      {
        if TakeFilled(subs) == [] {
          assert FilterFresh(TakeFilled(subs), clockSlot - maxStaleness) == [];
        }
      }
    } else if !checked && maxStaleness - clockSlot == TWO_64 - 1 {
      forall subs: Submissions
        ensures Samples(checked, subs, clockSlot, maxStaleness) == Ok(FilterFresh(TakeFilled(subs), 0))
      {
        FilledPassLow(TakeFilled(subs), 1);
        FilledPassLow(TakeFilled(subs), 0);
        TakeFilledIsPrefix(subs);
      }
    } else {
      EarlyWindowMisses(checked, SlotOneFeed(), clockSlot, maxStaleness);
    }
  }

  /** 32 submissions made at slot 1. */
  function SlotOneFeed(): (s: Submissions)
    ensures forall i :: 0 <= i < SUBMISSIONS ==> s[i].slot == 1
  {
    seq(SUBMISSIONS, _ => OracleSubmission(seq(32, _ => 0), 1, 0, 0))
  }

  /** Where all submissions were made at slot 1, none is empty. */
  lemma AllFilled(subs: Submissions)
    requires forall i :: 0 <= i < SUBMISSIONS ==> subs[i].slot == 1
    ensures TakeFilled(subs) == subs && FilterFresh(subs, 0) == subs
  {
    TakeFilledIsPrefix(subs);
    assert InPrefix(subs, SUBMISSIONS - 1);
    FilledPassLow(subs, 0);
  }

  /** A window reaching back before slot 0 should take all submissions; it takes none, or panics. */
  lemma EarlyWindowMisses(checked: bool, subs: Submissions, clockSlot: u64, maxStaleness: u64)
    requires forall i :: 0 <= i < SUBMISSIONS ==> subs[i].slot == 1
    requires clockSlot < maxStaleness && (checked || maxStaleness - clockSlot < TWO_64 - 1)
    ensures Samples(checked, subs, clockSlot, maxStaleness) == if checked then Panic(Overflow) else Ok([])
    ensures FilterFresh(TakeFilled(subs), 0) == subs
  {
    AllFilled(subs);
    if !checked {
      FilledPassNone(subs, clockSlot - maxStaleness + TWO_64);
    }
  }

  /** Non-empty submissions pass the thresholds 0 and 1. */
  lemma {:induction false} FilledPassLow(p: seq<OracleSubmission>, threshold: u64)
    requires threshold <= 1
    ensures (forall i :: 0 <= i < |p| ==> !p[i].IsEmpty()) ==> FilterFresh(p, threshold) == p
  {
    if p != [] {
      FilledPassLow(p[..|p| - 1], threshold);
      assert p == p[..|p| - 1] + [p[|p| - 1]];
    }
  }

  lemma {:induction false} FilledPassNone(p: seq<OracleSubmission>, threshold: u64)
    requires forall i :: 0 <= i < |p| ==> p[i].slot < threshold
    ensures FilterFresh(p, threshold) == []
  {
    if p != [] {
      FilledPassNone(p[..|p| - 1], threshold);
    }
  }

  // ---- current result ----

  function MaxLanded(s: seq<OracleSubmission>): (r: u64)
    ensures forall i :: 0 <= i < |s| ==> s[i].landedAt <= r
    ensures s != [] ==> exists i :: 0 <= i < |s| && s[i].landedAt == r
  {
    if s == [] then 0
    else
      var rest := MaxLanded(s[..|s| - 1]);
      var last := s[|s| - 1].landedAt;
      assert forall i :: 0 <= i < |s| - 1 ==> s[i] == s[..|s| - 1][i];
      if last >= rest then last else rest
  }

  /** No entry landed after this slot, and some entry landed at it. */
  ghost predicate IsLastUpdate(feed: PullFeed, slot: u64) {
    && (forall i :: 0 <= i < SUBMISSIONS ==> feed.submissions[i].landedAt <= slot)
    && exists i :: 0 <= i < SUBMISSIONS && feed.submissions[i].landedAt == slot
  }

  lemma LastUpdateUnique(feed: PullFeed, slot: u64)
    requires IsLastUpdate(feed, slot)
    ensures LastUpdateSlot(feed) == slot
  {
  }

  /** `last_update_slot`: over all 32 entries, empty ones included. */
  function LastUpdateSlot(feed: PullFeed): (r: u64)
    ensures IsLastUpdate(feed, r)
  {
    MaxLanded(feed.submissions)
  }

  /** Indices of the entries of `s` at or after `threshold`, in order. */
  function FreshPositions(s: seq<OracleSubmission>, threshold: u64): (r: seq<nat>)
    ensures forall k :: 0 <= k < |r| ==> r[k] < |s| && s[r[k]].slot >= threshold
  {
    if s == [] then []
    else
      var n := |s| - 1;
      var front := FreshPositions(s[..n], threshold);
      if s[n].slot >= threshold then front + [n] else front
  }

  /** Those positions in the non-empty prefix. */
  function FreshFilled(subs: Submissions, threshold: u64): (r: seq<nat>)
    ensures forall k :: 0 <= k < |r| ==> r[k] < SUBMISSIONS
  {
    TakeFilledIsPrefix(subs);
    FreshPositions(TakeFilled(subs), threshold)
  }

  /** `current_result_samples`, as the indices it pairs with each submission. Here the threshold is computed
      before the iteration, so it is evaluated even for an empty feed. */
  function CurrentResultSamples(checked: bool, feed: PullFeed): (r: Outcome<seq<nat>>)
    ensures r.Ok? ==> forall k :: 0 <= k < |r.value| ==> r.value[k] < SUBMISSIONS
  {
    match SubU64(checked, LastUpdateSlot(feed), feed.maxStaleness)
    case None => Panic(Overflow)
    case Some(threshold) => Ok(FreshFilled(feed.submissions, threshold))
  }

  function MinTs(ts: Timestamps, at: seq<nat>): (r: i64)
    requires at != [] && forall k :: 0 <= k < |at| ==> at[k] < SUBMISSIONS
  {
    if |at| == 1 then ts[at[0]]
    else
      var rest := MinTs(ts, at[1..]);
      if ts[at[0]] <= rest then ts[at[0]] else rest
  }

  function MaxTs(ts: Timestamps, at: seq<nat>): (r: i64)
    requires at != [] && forall k :: 0 <= k < |at| ==> at[k] < SUBMISSIONS
  {
    if |at| == 1 then ts[at[0]]
    else
      var rest := MaxTs(ts, at[1..]);
      if ts[at[0]] >= rest then ts[at[0]] else rest
  }

  function CurrentResultTsRange(checked: bool, feed: PullFeed): Outcome<(i64, i64)> {
    var at :- CurrentResultSamples(checked, feed);
    if at == [] then Ok((0, 0)) else Ok((MinTs(feed.submissionTimestamps, at), MaxTs(feed.submissionTimestamps, at)))
  }

  lemma {:induction false} TsExtremes(ts: Timestamps, at: seq<nat>)
    requires at != [] && forall k :: 0 <= k < |at| ==> at[k] < SUBMISSIONS
    ensures forall k :: 0 <= k < |at| ==> MinTs(ts, at) <= ts[at[k]] <= MaxTs(ts, at)
    ensures exists k :: 0 <= k < |at| && ts[at[k]] == MinTs(ts, at)
    ensures exists k :: 0 <= k < |at| && ts[at[k]] == MaxTs(ts, at)
  {
    if |at| > 1 {
      TsExtremes(ts, at[1..]);
      var i :| 0 <= i < |at[1..]| && ts[at[1..][i]] == MinTs(ts, at[1..]);
      var j :| 0 <= j < |at[1..]| && ts[at[1..][j]] == MaxTs(ts, at[1..]);
      assert forall k :: 1 <= k < |at| ==> at[k] == at[1..][k - 1];
      assert ts[at[0]] == MinTs(ts, at) || ts[at[i + 1]] == MinTs(ts, at);
      assert ts[at[0]] == MaxTs(ts, at) || ts[at[j + 1]] == MaxTs(ts, at);
    }
  }

  lemma {:induction false} FreshPositionsExact(s: seq<OracleSubmission>, threshold: u64, i: nat)
    ensures i in FreshPositions(s, threshold) <==> i < |s| && s[i].slot >= threshold
  {
    if s != [] {
      FreshPositionsExact(s[..|s| - 1], threshold, i);
    }
  }

  /** The reported range is the exact span of the timestamps of the fresh submissions, and (0, 0) when there are
      none; the only failure is the overflow of a window longer than the last update slot. */
  lemma TsRangeExact(checked: bool, feed: PullFeed, last: u64)
    requires IsLastUpdate(feed, last)
    ensures var live := FreshIndices(feed.submissions, Threshold(last, feed.maxStaleness));
            var r := CurrentResultTsRange(checked, feed);
            if checked && last < feed.maxStaleness then r == Panic(Overflow)
            else
              && r.Ok?
              && (live == {} ==> r.value == (0, 0))
              && (forall i :: i in live ==> r.value.0 <= feed.submissionTimestamps[i] <= r.value.1)
              && (live != {} ==> exists i :: i in live && feed.submissionTimestamps[i] == r.value.0)
              && (live != {} ==> exists i :: i in live && feed.submissionTimestamps[i] == r.value.1)
  {
    LastUpdateUnique(feed, last);
    var threshold := Threshold(last, feed.maxStaleness);
    if !checked || LastUpdateSlot(feed) >= feed.maxStaleness {
      var at := CurrentResultSamples(checked, feed).value;
      forall i: nat
        ensures i in at <==> i in FreshIndices(feed.submissions, threshold)
      {
        PositionsAreFresh(feed.submissions, threshold, i);
      }
      SpanExact(feed.submissionTimestamps, at, FreshIndices(feed.submissions, threshold));
    }
  }

  lemma SpanExact(ts: Timestamps, at: seq<nat>, live: set<int>)
    requires forall k :: 0 <= k < |at| ==> at[k] < SUBMISSIONS
    requires (forall i: nat :: i in at <==> i in live) && forall i :: i in live ==> 0 <= i
    ensures at == [] <==> live == {}
    ensures at != [] ==>
              && (forall i :: i in live ==> i < SUBMISSIONS && MinTs(ts, at) <= ts[i] <= MaxTs(ts, at))
              && (exists i :: i in live && i < SUBMISSIONS && ts[i] == MinTs(ts, at))
              && (exists i :: i in live && i < SUBMISSIONS && ts[i] == MaxTs(ts, at))
  {
    if at != [] {
      assert at[0] in at;
      TsExtremes(ts, at);
    } else {
      assert forall i :: i in live ==> i in at;
      assert live == {};
    }
  }

  lemma PositionsAreFresh(subs: Submissions, threshold: u64, i: nat)
    ensures i in FreshFilled(subs, threshold) <==> i in FreshIndices(subs, threshold)
  {
    TakeFilledIsPrefix(subs);
    FreshPositionsExact(TakeFilled(subs), threshold, i);
  }

  /** `current_result_samples` pairs each fresh submission with its index, once and in order. */
  lemma CurrentSamplesExact(checked: bool, feed: PullFeed, last: u64)
    requires IsLastUpdate(feed, last)
    ensures var r := CurrentResultSamples(checked, feed);
            if checked && last < feed.maxStaleness then r == Panic(Overflow)
            else r.Ok? && Lists(r.value, FreshIndices(feed.submissions, Threshold(last, feed.maxStaleness)))
  {
    LastUpdateUnique(feed, last);
    FreshInOrder(feed.submissions, Threshold(last, feed.maxStaleness));
  }

  // ---- valid samples ----

  ghost predicate Increasing(at: seq<nat>) {
    forall i, j :: 0 <= i < j < |at| ==> at[i] < at[j]
  }

  function EntriesAt(s: seq<OracleSubmission>, at: seq<nat>): seq<OracleSubmission>
    requires forall k :: 0 <= k < |at| ==> at[k] < |s|
  {
    seq(|at|, k requires 0 <= k < |at| => s[at[k]])
  }

  lemma EntriesInPrefix(p: seq<OracleSubmission>, s: seq<OracleSubmission>, at: seq<nat>)
    requires p <= s && forall k :: 0 <= k < |at| ==> at[k] < |p|
    ensures EntriesAt(p, at) == EntriesAt(s, at)
  {
  }

  lemma {:induction false} PositionsIncrease(s: seq<OracleSubmission>, threshold: u64)
    ensures Increasing(FreshPositions(s, threshold))
  {
    if s != [] {
      PositionsIncrease(s[..|s| - 1], threshold);
    }
  }

  /** The filter keeps the entries at the fresh positions. */
  lemma {:induction false} FilterByPosition(s: seq<OracleSubmission>, threshold: u64)
    ensures FilterFresh(s, threshold) == EntriesAt(s, FreshPositions(s, threshold))
  {
    if s != [] {
      var n := |s| - 1;
      var front := FreshPositions(s[..n], threshold);
      FilterByPosition(s[..n], threshold);
      EntriesInPrefix(s[..n], s, front);
      EntriesNext(s, front, n);
    }
  }

  lemma EntriesNext(s: seq<OracleSubmission>, at: seq<nat>, n: nat)
    requires n < |s| && forall k :: 0 <= k < |at| ==> at[k] < |s|
    ensures EntriesAt(s, at + [n]) == EntriesAt(s, at) + [s[n]]
  {
  }

  /** `at` lists exactly the indices in `all`, in increasing order. */
  ghost predicate Lists(at: seq<nat>, all: set<int>) {
    Increasing(at) && forall i: nat :: i in at <==> i in all
  }

  /** `valid_samples` yields each fresh submission once, in the order of the account's array. */
  lemma ValidSamplesExact(checked: bool, feed: PullFeed, clockSlot: u64)
    ensures var threshold := Threshold(clockSlot, feed.maxStaleness);
            var at := FreshFilled(feed.submissions, threshold);
            Lists(at, FreshIndices(feed.submissions, threshold))
            && ValidSamples(checked, feed, clockSlot)
               == if checked && clockSlot < feed.maxStaleness && feed.submissions[0].slot != 0 then Panic(Overflow)
                  else Ok(EntriesAt(feed.submissions, at))
  {
    var subs, threshold := feed.submissions, Threshold(clockSlot, feed.maxStaleness);
    FreshInOrder(subs, threshold);
    if TakeFilled(subs) == [] {
      assert FilterFresh(TakeFilled(subs), threshold) == [];
    }
  }

  lemma FreshInOrder(subs: Submissions, threshold: u64)
    ensures Lists(FreshFilled(subs, threshold), FreshIndices(subs, threshold))
    ensures FilterFresh(TakeFilled(subs), threshold) == EntriesAt(subs, FreshFilled(subs, threshold))
  {
    TakeFilledIsPrefix(subs);
    PositionsIncrease(TakeFilled(subs), threshold);
    FilterByPosition(TakeFilled(subs), threshold);
    EntriesInPrefix(TakeFilled(subs), subs, FreshFilled(subs, threshold));
    forall i: nat
      ensures i in FreshFilled(subs, threshold) <==> i in FreshIndices(subs, threshold)
    {
      PositionsAreFresh(subs, threshold, i);
    }
  }

  /** With the feed's own window, `get_value` lacks samples exactly when `valid_samples` yields too few. */
  lemma ValueNeedsValidSamples(
    checked: bool, feed: PullFeed, clockSlot: u64, minSamples: u32, onlyPositive: bool)
    ensures var samples := ValidSamples(checked, feed, clockSlot);
            var r := GetValue(checked, feed, clockSlot, feed.maxStaleness, minSamples, onlyPositive);
            && (r == Bail(NotEnoughSamples) <==> samples.Ok? && (samples.value == [] || |samples.value| < minSamples))
            && (r.Ok? ==> Median(Values(samples.value)) == Some(r.value.mantissa))
  {
  }
}
