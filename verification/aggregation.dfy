/** Daily aggregation: collapsing flat events and payments to one row per
    (user_id, value_prop, day). Rows whose key has a null part are skipped,
    as a group-by skips null keys. */
module Aggregation {
  import opened Records
  import opened Tables

  // ------------------------------------------------------ reference counts

  /** Some event carries key `k`. */
  predicate EventsHaveKey(evs: seq<Event>, k: Key) {
    exists i :: 0 <= i < |evs| && EventKey(evs[i]) == Some(k)
  }

  /** Some payment carries key `k`. */
  predicate PaymentsHaveKey(pays: seq<Payment>, k: Key) {
    exists i :: 0 <= i < |pays| && PaymentKey(pays[i]) == Some(k)
  }

  lemma EventsHaveKeyAppend(init: seq<Event>, e: Event)
    ensures forall k :: EventsHaveKey(init + [e], k) <==> EventsHaveKey(init, k) || EventKey(e) == Some(k)
  {
    var evs := init + [e];
    assert forall i :: 0 <= i < |init| ==> evs[i] == init[i];
    assert evs[|init|] == e;
  }

  lemma PaymentsHaveKeyAppend(init: seq<Payment>, p: Payment)
    ensures forall k :: PaymentsHaveKey(init + [p], k) <==> PaymentsHaveKey(init, k) || PaymentKey(p) == Some(k)
  {
    var pays := init + [p];
    assert forall i :: 0 <= i < |init| ==> pays[i] == init[i];
    assert pays[|init|] == p;
  }

  /** Number of events whose key is `k`. */
  function CountAt(evs: seq<Event>, k: Key): nat {
    if |evs| == 0 then 0
    else CountAt(evs[..|evs| - 1], k) + (if EventKey(evs[|evs| - 1]) == Some(k) then 1 else 0)
  }

  /** Number of events that have a key (a non-null offer). */
  function KeyedCount(evs: seq<Event>): nat {
    if |evs| == 0 then 0
    else KeyedCount(evs[..|evs| - 1]) + (if EventKey(evs[|evs| - 1]).Some? then 1 else 0)
  }

  /** Number of events of group `g` on the days [lo, hi). */
  function CountBetween(evs: seq<Event>, g: Group, lo: Day, hi: Day): nat {
    if |evs| == 0 then 0
    else
      var e := evs[|evs| - 1];
      CountBetween(evs[..|evs| - 1], g, lo, hi)
        + (if EventKey(e).Some? && EventKey(e).value.group == g && lo <= e.day < hi then 1 else 0)
  }

  /** Number of payments whose key is `k`. */
  function PaymentCountAt(pays: seq<Payment>, k: Key): nat {
    if |pays| == 0 then 0
    else PaymentCountAt(pays[..|pays| - 1], k) + (if PaymentKey(pays[|pays| - 1]) == Some(k) then 1 else 0)
  }

  /** Summed amount of the payments whose key is `k`. */
  function AmountAt(pays: seq<Payment>, k: Key): int {
    if |pays| == 0 then 0
    else AmountAt(pays[..|pays| - 1], k) + (if PaymentKey(pays[|pays| - 1]) == Some(k) then pays[|pays| - 1].amount else 0)
  }

  /** Number of payments of group `g` on the days [lo, hi). */
  function PaymentsBetween(pays: seq<Payment>, g: Group, lo: Day, hi: Day): nat {
    if |pays| == 0 then 0
    else
      var p := pays[|pays| - 1];
      PaymentsBetween(pays[..|pays| - 1], g, lo, hi)
        + (if PaymentKey(p).Some? && PaymentKey(p).value.group == g && lo <= p.day < hi then 1 else 0)
  }

  /** Summed amount of the payments of group `g` on the days [lo, hi). */
  function AmountBetween(pays: seq<Payment>, g: Group, lo: Day, hi: Day): int {
    if |pays| == 0 then 0
    else
      var p := pays[|pays| - 1];
      AmountBetween(pays[..|pays| - 1], g, lo, hi)
        + (if PaymentKey(p).Some? && PaymentKey(p).value.group == g && lo <= p.day < hi then p.amount else 0)
  }

  // ---------------------------------------------------------------- group-by

  /** Adds `v` to the row keyed `k`, appending a row when there is none. */
  function Tally(rows: seq<MetricRow>, k: Key, v: int): (r: seq<MetricRow>)
    requires UniqueKeys(rows)
    ensures UniqueKeys(r)
    ensures forall k' :: HasKey(r, k') <==> HasKey(rows, k') || k' == k
    ensures forall k' :: MetricAt(r, k') == MetricAt(rows, k') + (if k' == k then v else 0)
    decreases |rows|
  {
    if |rows| == 0 then
      var r := [MetricRow(k, v)];
      assert r[1..] == [];
      assert forall k' :: HasKey(r, k') <==> r[0].key == k';
      r
    else
      var rest := rows[1..];
      assert rows == [rows[0]] + rest;
      HasKeyCons(rows[0], rest);
      assert UniqueKeys(rest) by {
        forall i, j | 0 <= i < j < |rest| ensures rest[i].key != rest[j].key {
          assert rest[i] == rows[i + 1] && rest[j] == rows[j + 1];
        }
      }
      assert !HasKey(rest, rows[0].key) by {
        forall i | 0 <= i < |rest| ensures rest[i].key != rows[0].key {
          assert rest[i] == rows[i + 1];
        }
      }
      if rows[0].key == k then
        var r := [MetricRow(k, rows[0].value + v)] + rest;
        HasKeyCons(MetricRow(k, rows[0].value + v), rest);
        assert r[1..] == rest;
        r
      else
        var t := Tally(rest, k, v);
        var r := [rows[0]] + t;
        HasKeyCons(rows[0], t);
        assert r[1..] == t;
        r
  }

  /** Tallying `v` adds `v` to the table total. */
  lemma {:induction false} TallyTotal(rows: seq<MetricRow>, k: Key, v: int)
    requires UniqueKeys(rows)
    ensures Total(Tally(rows, k, v)) == Total(rows) + v
    decreases |rows|
  {
    if |rows| == 0 {
      TotalCons(MetricRow(k, v), []);
    } else {
      var rest := rows[1..];
      assert rows == [rows[0]] + rest;
      TotalCons(rows[0], rest);
      assert UniqueKeys(rest) by {
        forall i, j | 0 <= i < j < |rest| ensures rest[i].key != rest[j].key {
          assert rest[i] == rows[i + 1] && rest[j] == rows[j + 1];
        }
      }
      if rows[0].key == k {
        TotalCons(MetricRow(k, rows[0].value + v), rest);
      } else {
        TallyTotal(rest, k, v);
        TotalCons(rows[0], Tally(rest, k, v));
      }
    }
  }

  /** Tallying a positive value into a table of positive values keeps every
      value positive. */
  lemma {:induction false} TallyPositive(rows: seq<MetricRow>, k: Key, v: int)
    requires UniqueKeys(rows)
    requires forall i :: 0 <= i < |rows| ==> rows[i].value > 0
    requires v > 0
    ensures forall i :: 0 <= i < |Tally(rows, k, v)| ==> Tally(rows, k, v)[i].value > 0
    decreases |rows|
  {
    if |rows| > 0 {
      var rest := rows[1..];
      assert UniqueKeys(rest) by {
        forall i, j | 0 <= i < j < |rest| ensures rest[i].key != rest[j].key {
          assert rest[i] == rows[i + 1] && rest[j] == rows[j + 1];
        }
      }
      if rows[0].key != k {
        TallyPositive(rest, k, v);
        var t := Tally(rest, k, v);
        var r := [rows[0]] + t;
        assert forall i :: 1 <= i < |r| ==> r[i] == t[i - 1];
      }
    }
  }

  /** The group-by sum of `entries`: one row per distinct key holding the
      sum of that key's values. */
  function GroupSum(entries: seq<MetricRow>): (r: seq<MetricRow>)
    ensures UniqueKeys(r)
    ensures forall k :: HasKey(r, k) <==> HasKey(entries, k)
    ensures forall k :: MetricAt(r, k) == SumAt(entries, k)
    decreases |entries|
  {
    if |entries| == 0 then []
    else
      var init := entries[..|entries| - 1];
      var last := entries[|entries| - 1];
      assert entries == init + [last];
      HasKeyAppend(init, last);
      Tally(GroupSum(init), last.key, last.value)
  }

  /** The group-by keeps the grand total. */
  lemma {:induction false} GroupSumTotal(entries: seq<MetricRow>)
    ensures Total(GroupSum(entries)) == Total(entries)
    decreases |entries|
  {
    if |entries| > 0 {
      var init := entries[..|entries| - 1];
      GroupSumTotal(init);
      TallyTotal(GroupSum(init), entries[|entries| - 1].key, entries[|entries| - 1].value);
    }
  }

  /** Positive entries give positive group sums. */
  lemma {:induction false} GroupSumPositive(entries: seq<MetricRow>)
    requires forall i :: 0 <= i < |entries| ==> entries[i].value > 0
    ensures forall i :: 0 <= i < |GroupSum(entries)| ==> GroupSum(entries)[i].value > 0
    decreases |entries|
  {
    if |entries| > 0 {
      var init := entries[..|entries| - 1];
      assert forall i :: 0 <= i < |init| ==> init[i] == entries[i];
      GroupSumPositive(init);
      TallyPositive(GroupSum(init), entries[|entries| - 1].key, entries[|entries| - 1].value);
    }
  }

  // ----------------------------------------------------------------- events

  /** Each keyed event as an entry of value 1. */
  function CountEntries(evs: seq<Event>): (r: seq<MetricRow>)
    ensures forall i :: 0 <= i < |r| ==> r[i].value == 1
    ensures forall k :: HasKey(r, k) <==> EventsHaveKey(evs, k)
    ensures forall k :: SumAt(r, k) == CountAt(evs, k)
    ensures Total(r) == KeyedCount(evs)
    decreases |evs|
  {
    if |evs| == 0 then []
    else
      var init := evs[..|evs| - 1];
      var e := evs[|evs| - 1];
      var prev := CountEntries(init);
      assert evs == init + [e];
      EventsHaveKeyAppend(init, e);
      match EventKey(e)
      case None => prev
      case Some(k) =>
        var r := prev + [MetricRow(k, 1)];
        HasKeyAppend(prev, MetricRow(k, 1));
        SumAtAppend(prev, MetricRow(k, 1));
        r
  }

  /** Daily counts: one row per (user_id, value_prop, day) with the number
      of events that carry that key. Empty input gives an empty table. */
  function DailyCounts(evs: seq<Event>): (r: seq<MetricRow>)
    ensures |evs| == 0 ==> r == []
    ensures UniqueKeys(r)
    ensures forall k :: HasKey(r, k) <==> EventsHaveKey(evs, k)
    ensures forall k :: MetricAt(r, k) == CountAt(evs, k)
    ensures forall i :: 0 <= i < |r| ==> r[i].value > 0
    ensures Total(r) == KeyedCount(evs)
  {
    if |evs| == 0 then []
    else
      GroupSumTotal(CountEntries(evs));
      GroupSumPositive(CountEntries(evs));
      GroupSum(CountEntries(evs))
  }

  /** When every event names an offer, the daily counts add up to the
      number of events. */
  lemma {:induction false} DailyCountsTotal(evs: seq<Event>)
    requires forall i :: 0 <= i < |evs| ==> evs[i].valueProp.Some?
    ensures Total(DailyCounts(evs)) == |evs|
  {
    KeyedCountAll(evs);
  }

  lemma {:induction false} KeyedCountAll(evs: seq<Event>)
    requires forall i :: 0 <= i < |evs| ==> evs[i].valueProp.Some?
    ensures KeyedCount(evs) == |evs|
  {
    if |evs| > 0 {
      KeyedCountAll(evs[..|evs| - 1]);
    }
  }

  /** Summing the daily counts of a group over a day range counts the
      group's events in that range. */
  lemma {:induction false} DailyCountsBetween(evs: seq<Event>, g: Group, lo: Day, hi: Day)
    ensures DaySum(DailyCounts(evs), g, lo, hi) == CountBetween(evs, g, lo, hi)
  {
    var entries := CountEntries(evs);
    if |evs| == 0 {
      DaySumOfAbsentDays([], g, lo, hi);
    } else {
      DaySumOfSums(DailyCounts(evs), entries, g, lo, hi);
    }
    CountEntriesBetween(evs, g, lo, hi);
  }

  lemma {:induction false} CountEntriesBetween(evs: seq<Event>, g: Group, lo: Day, hi: Day)
    ensures SumBetween(CountEntries(evs), g, lo, hi) == CountBetween(evs, g, lo, hi)
    decreases |evs|
  {
    if |evs| > 0 {
      var init := evs[..|evs| - 1];
      CountEntriesBetween(init, g, lo, hi);
      var e := evs[|evs| - 1];
      if EventKey(e).Some? {
        var r := CountEntries(evs);
        assert r[..|r| - 1] == CountEntries(init);
      }
    }
  }

  // --------------------------------------------------------------- payments

  /** Each keyed payment as an entry of value 1. */
  function PaymentCountEntries(pays: seq<Payment>): (r: seq<MetricRow>)
    ensures forall i :: 0 <= i < |r| ==> r[i].value == 1
    ensures forall k :: HasKey(r, k) <==> PaymentsHaveKey(pays, k)
    ensures forall k :: SumAt(r, k) == PaymentCountAt(pays, k)
    decreases |pays|
  {
    if |pays| == 0 then []
    else
      var init := pays[..|pays| - 1];
      var p := pays[|pays| - 1];
      var prev := PaymentCountEntries(init);
      assert pays == init + [p];
      PaymentsHaveKeyAppend(init, p);
      match PaymentKey(p)
      case None => prev
      case Some(k) =>
        var r := prev + [MetricRow(k, 1)];
        HasKeyAppend(prev, MetricRow(k, 1));
        SumAtAppend(prev, MetricRow(k, 1));
        r
  }

  /** Each keyed payment as an entry holding its amount. */
  function AmountEntries(pays: seq<Payment>): (r: seq<MetricRow>)
    ensures forall k :: HasKey(r, k) <==> PaymentsHaveKey(pays, k)
    ensures forall k :: SumAt(r, k) == AmountAt(pays, k)
    decreases |pays|
  {
    if |pays| == 0 then []
    else
      var init := pays[..|pays| - 1];
      var p := pays[|pays| - 1];
      var prev := AmountEntries(init);
      assert pays == init + [p];
      PaymentsHaveKeyAppend(init, p);
      match PaymentKey(p)
      case None => prev
      case Some(k) =>
        var r := prev + [MetricRow(k, p.amount)];
        HasKeyAppend(prev, MetricRow(k, p.amount));
        SumAtAppend(prev, MetricRow(k, p.amount));
        r
  }

  /** Every row of `r` is an amount-only key, held once, with a zero count
      and its amount. */
  predicate AmountOnlyRows(counts: seq<MetricRow>, amounts: seq<MetricRow>, r: seq<PaymentRow>) {
    && (forall i, j :: 0 <= i < j < |r| ==> r[i].key != r[j].key)
    && (forall i :: 0 <= i < |r| ==> !HasKey(counts, r[i].key) && HasKey(amounts, r[i].key))
    && (forall i :: 0 <= i < |r| ==> r[i].payments == 0 && r[i].amount == MetricAt(amounts, r[i].key))
  }

  /** Every amount-only key has a row in `r`. */
  ghost predicate AmountOnlyCovered(counts: seq<MetricRow>, amounts: seq<MetricRow>, r: seq<PaymentRow>) {
    forall k :: HasKey(amounts, k) && !HasKey(counts, k) ==> exists i :: 0 <= i < |r| && r[i].key == k
  }

  /** One step of RightOnly: `r` is the result for `amounts`, built from
      the result `tail` for `amounts[1..]`. */
  ghost predicate RightOnlyStepped(counts: seq<MetricRow>, amounts: seq<MetricRow>, tail: seq<PaymentRow>, r: seq<PaymentRow>) {
    && UniqueKeys(amounts) && |amounts| > 0
    && AmountOnlyRows(counts, amounts[1..], tail)
    && AmountOnlyCovered(counts, amounts[1..], tail)
    && r == if HasKey(counts, amounts[0].key) then tail else [PaymentRow(amounts[0].key, 0, amounts[0].value)] + tail
  }

  /** The rows of `amounts` whose key `counts` lacks, as payment rows with
      a zero count (the right-only half of an outer merge). */
  function RightOnly(counts: seq<MetricRow>, amounts: seq<MetricRow>): (r: seq<PaymentRow>)
    requires UniqueKeys(amounts)
    ensures AmountOnlyRows(counts, amounts, r)
    ensures AmountOnlyCovered(counts, amounts, r)
    decreases |amounts|
  {
    if |amounts| == 0 then []
    else
      UniqueKeysTail(amounts);
      var tail := RightOnly(counts, amounts[1..]);
      var r := if HasKey(counts, amounts[0].key) then tail else [PaymentRow(amounts[0].key, 0, amounts[0].value)] + tail;
      RightOnlyStep(counts, amounts, tail, r);
      r
  }

  lemma {:induction false} RightOnlyStep(counts: seq<MetricRow>, amounts: seq<MetricRow>, tail: seq<PaymentRow>, r: seq<PaymentRow>)
    requires RightOnlyStepped(counts, amounts, tail, r)
    ensures AmountOnlyRows(counts, amounts, r)
    ensures AmountOnlyCovered(counts, amounts, r)
  {
    RightOnlyStepRows(counts, amounts, tail, r);
    RightOnlyStepCover(counts, amounts, tail, r);
  }

  lemma {:induction false} RightOnlyStepRows(counts: seq<MetricRow>, amounts: seq<MetricRow>, tail: seq<PaymentRow>, r: seq<PaymentRow>)
    requires RightOnlyStepped(counts, amounts, tail, r)
    ensures AmountOnlyRows(counts, amounts, r)
  {
    var a := amounts[0];
    var rest := amounts[1..];
    assert amounts == [a] + rest;
    HasKeyCons(a, rest);
    UniqueKeysTail(amounts);
    assert AmountOnlyRows(counts, rest, tail);
    forall i | 0 <= i < |tail|
      ensures tail[i].key != a.key && HasKey(amounts, tail[i].key)
      ensures MetricAt(amounts, tail[i].key) == MetricAt(rest, tail[i].key)
    {
      assert HasKey(rest, tail[i].key);
    }
    if HasKey(counts, a.key) {
      assert r == tail;
    } else {
      assert forall i :: 1 <= i < |r| ==> r[i] == tail[i - 1];
      assert r[0] == PaymentRow(a.key, 0, a.value);
      assert MetricAt(amounts, a.key) == a.value;
    }
  }

  lemma {:induction false} RightOnlyStepCover(counts: seq<MetricRow>, amounts: seq<MetricRow>, tail: seq<PaymentRow>, r: seq<PaymentRow>)
    requires RightOnlyStepped(counts, amounts, tail, r)
    ensures AmountOnlyCovered(counts, amounts, r)
  {
    var a := amounts[0];
    var rest := amounts[1..];
    assert amounts == [a] + rest;
    HasKeyCons(a, rest);
    forall k | HasKey(amounts, k) && !HasKey(counts, k) ensures exists i :: 0 <= i < |r| && r[i].key == k {
      if k == a.key {
        assert r[0].key == k;
      } else {
        var i :| 0 <= i < |tail| && tail[i].key == k;
        if !HasKey(counts, a.key) {
          assert r[i + 1] == tail[i];
        } else {
          assert r[i] == tail[i];
        }
      }
    }
  }

  /** `r` is the outer merge of `counts` and `amounts`: its keys, each held
      once, are those of either table, and each row carries both tables'
      values, 0 where a table lacks the key. */
  ghost predicate Merged(counts: seq<MetricRow>, amounts: seq<MetricRow>, r: seq<PaymentRow>) {
    && (forall i, j :: 0 <= i < j < |r| ==> r[i].key != r[j].key)
    && (forall k :: (exists i :: 0 <= i < |r| && r[i].key == k) <==> HasKey(counts, k) || HasKey(amounts, k))
    && (forall i :: 0 <= i < |r| ==> r[i].payments == MetricAt(counts, r[i].key) && r[i].amount == MetricAt(amounts, r[i].key))
  }

  /** The parts OuterMerge builds: `left` pairs each count row with its
      amount, `right` holds the amount-only keys, and `r` is both. */
  predicate MergeParts(counts: seq<MetricRow>, amounts: seq<MetricRow>, left: seq<PaymentRow>, right: seq<PaymentRow>, r: seq<PaymentRow>) {
    && UniqueKeys(amounts)
    && left == seq(|counts|, i requires 0 <= i < |counts| => PaymentRow(counts[i].key, counts[i].value, MetricAt(amounts, counts[i].key)))
    && right == RightOnly(counts, amounts)
    && r == left + right
  }

  /** Outer merge of the daily payment counts and amounts on the key,
      filling a missing side with 0. */
  function OuterMerge(counts: seq<MetricRow>, amounts: seq<MetricRow>): (r: seq<PaymentRow>)
    requires UniqueKeys(counts) && UniqueKeys(amounts)
    ensures Merged(counts, amounts, r)
  {
    var left := seq(|counts|, i requires 0 <= i < |counts| => PaymentRow(counts[i].key, counts[i].value, MetricAt(amounts, counts[i].key)));
    var right := RightOnly(counts, amounts);
    var r := left + right;
    MergeProperties(counts, amounts, left, right, r);
    r
  }

  lemma {:induction false} MergeProperties(counts: seq<MetricRow>, amounts: seq<MetricRow>, left: seq<PaymentRow>, right: seq<PaymentRow>, r: seq<PaymentRow>)
    requires UniqueKeys(counts) && MergeParts(counts, amounts, left, right, r)
    ensures Merged(counts, amounts, r)
  {
    MergeValues(counts, amounts, left, right, r);
    MergeUnique(counts, amounts, left, right, r);
    MergeCover(counts, amounts, left, right, r);
  }

  lemma {:induction false} MergeValues(counts: seq<MetricRow>, amounts: seq<MetricRow>, left: seq<PaymentRow>, right: seq<PaymentRow>, r: seq<PaymentRow>)
    requires UniqueKeys(counts) && MergeParts(counts, amounts, left, right, r)
    ensures forall i :: 0 <= i < |r| ==> r[i].payments == MetricAt(counts, r[i].key) && r[i].amount == MetricAt(amounts, r[i].key)
  {
    forall i | 0 <= i < |r|
      ensures r[i].payments == MetricAt(counts, r[i].key) && r[i].amount == MetricAt(amounts, r[i].key)
    {
      if i < |left| {
        assert r[i] == left[i];
        MetricAtUnique(counts, i);
      } else {
        assert r[i] == right[i - |left|];
        MetricAtAbsent(counts, r[i].key);
      }
    }
  }

  lemma {:induction false} MergeUnique(counts: seq<MetricRow>, amounts: seq<MetricRow>, left: seq<PaymentRow>, right: seq<PaymentRow>, r: seq<PaymentRow>)
    requires UniqueKeys(counts) && MergeParts(counts, amounts, left, right, r)
    ensures forall i, j :: 0 <= i < j < |r| ==> r[i].key != r[j].key
  {
    forall i, j | 0 <= i < j < |r| ensures r[i].key != r[j].key {
      if j < |left| {
        assert r[i] == left[i] && r[j] == left[j];
      } else if i < |left| {
        assert r[i] == left[i] && r[j] == right[j - |left|];
        assert HasKey(counts, counts[i].key);
      } else {
        assert r[i] == right[i - |left|] && r[j] == right[j - |left|];
      }
    }
  }

  lemma {:induction false} MergeCover(counts: seq<MetricRow>, amounts: seq<MetricRow>, left: seq<PaymentRow>, right: seq<PaymentRow>, r: seq<PaymentRow>)
    requires UniqueKeys(counts) && MergeParts(counts, amounts, left, right, r)
    ensures forall k :: (exists i :: 0 <= i < |r| && r[i].key == k) <==> HasKey(counts, k) || HasKey(amounts, k)
  {
    forall k ensures (exists i :: 0 <= i < |r| && r[i].key == k) <==> HasKey(counts, k) || HasKey(amounts, k) {
      MergeKey(counts, amounts, left, right, r, k);
    }
  }

  lemma {:induction false} MergeKey(counts: seq<MetricRow>, amounts: seq<MetricRow>, left: seq<PaymentRow>, right: seq<PaymentRow>, r: seq<PaymentRow>, k: Key)
    requires UniqueKeys(counts) && MergeParts(counts, amounts, left, right, r)
    ensures (exists i :: 0 <= i < |r| && r[i].key == k) <==> HasKey(counts, k) || HasKey(amounts, k)
  {
    if exists i :: 0 <= i < |r| && r[i].key == k {
      var i :| 0 <= i < |r| && r[i].key == k;
      MergeKeyFound(counts, amounts, left, right, r, i);
    }
    if HasKey(counts, k) || HasKey(amounts, k) {
      MergeKeyCovered(counts, amounts, left, right, r, k);
    }
  }

  lemma {:induction false} MergeKeyFound(counts: seq<MetricRow>, amounts: seq<MetricRow>, left: seq<PaymentRow>, right: seq<PaymentRow>, r: seq<PaymentRow>, i: int)
    requires MergeParts(counts, amounts, left, right, r)
    requires 0 <= i < |r|
    ensures HasKey(counts, r[i].key) || HasKey(amounts, r[i].key)
  {
    if i < |left| {
      assert r[i] == left[i];
      assert counts[i].key == r[i].key;
    } else {
      var j := i - |left|;
      assert r[i] == right[j];
      assert HasKey(amounts, right[j].key);
    }
  }

  lemma {:induction false} MergeKeyCovered(counts: seq<MetricRow>, amounts: seq<MetricRow>, left: seq<PaymentRow>, right: seq<PaymentRow>, r: seq<PaymentRow>, k: Key)
    requires MergeParts(counts, amounts, left, right, r)
    requires HasKey(counts, k) || HasKey(amounts, k)
    ensures exists i :: 0 <= i < |r| && r[i].key == k
  {
    if HasKey(counts, k) {
      var i :| 0 <= i < |counts| && counts[i].key == k;
      assert r[i] == left[i];
    } else {
      var j :| 0 <= j < |right| && right[j].key == k;
      assert r[|left| + j] == right[j];
    }
  }

  /** Daily payments: one row per (user_id, value_prop, day) with the
      number of payments and their summed amount. */
  function PaymentDaily(pays: seq<Payment>): (r: seq<PaymentRow>)
    ensures |pays| == 0 ==> r == []
    ensures forall i, j :: 0 <= i < j < |r| ==> r[i].key != r[j].key
    ensures forall k :: (exists i :: 0 <= i < |r| && r[i].key == k) <==> PaymentsHaveKey(pays, k)
    ensures forall i :: 0 <= i < |r| ==> r[i].payments == PaymentCountAt(pays, r[i].key) && r[i].amount == AmountAt(pays, r[i].key)
  {
    if |pays| == 0 then []
    else OuterMerge(GroupSum(PaymentCountEntries(pays)), GroupSum(AmountEntries(pays)))
  }

  /** The count and the amount tables are grouped from the same payments
      and drop the same null keys, so every amount key has a count: the
      right-only half of the outer merge is always empty and no missing
      count is ever filled with 0. */
  lemma MergeFillsNothing(pays: seq<Payment>)
    ensures RightOnly(GroupSum(PaymentCountEntries(pays)), GroupSum(AmountEntries(pays))) == []
  {
    var r := RightOnly(GroupSum(PaymentCountEntries(pays)), GroupSum(AmountEntries(pays)));
    if |r| > 0 {
      AmountKeyCounted(pays, r[0].key);
      assert false;
    }
  }

  lemma AmountKeyCounted(pays: seq<Payment>, k: Key)
    ensures HasKey(GroupSum(AmountEntries(pays)), k) ==> HasKey(GroupSum(PaymentCountEntries(pays)), k)
  {
  }

  /** The payment-count column of the daily payment table. */
  function PaymentsColumn(rows: seq<PaymentRow>): (r: seq<MetricRow>)
    ensures |r| == |rows|
    ensures (forall i, j :: 0 <= i < j < |rows| ==> rows[i].key != rows[j].key) ==> UniqueKeys(r)
  {
    seq(|rows|, i requires 0 <= i < |rows| => MetricRow(rows[i].key, rows[i].payments))
  }

  /** The amount column of the daily payment table. */
  function AmountColumn(rows: seq<PaymentRow>): (r: seq<MetricRow>)
    ensures |r| == |rows|
    ensures (forall i, j :: 0 <= i < j < |rows| ==> rows[i].key != rows[j].key) ==> UniqueKeys(r)
  {
    seq(|rows|, i requires 0 <= i < |rows| => MetricRow(rows[i].key, rows[i].amount))
  }

  /** The two columns of the daily payment table, looked up by key, give
      the number and the summed amount of that key's payments. */
  lemma PaymentColumns(pays: seq<Payment>)
    ensures UniqueKeys(PaymentsColumn(PaymentDaily(pays)))
    ensures UniqueKeys(AmountColumn(PaymentDaily(pays)))
    ensures forall k :: HasKey(PaymentsColumn(PaymentDaily(pays)), k) <==> PaymentsHaveKey(pays, k)
    ensures forall k :: HasKey(AmountColumn(PaymentDaily(pays)), k) <==> PaymentsHaveKey(pays, k)
    ensures forall k :: MetricAt(PaymentsColumn(PaymentDaily(pays)), k) == PaymentCountAt(pays, k)
    ensures forall k :: MetricAt(AmountColumn(PaymentDaily(pays)), k) == AmountAt(pays, k)
  {
    var daily := PaymentDaily(pays);
    var pc := PaymentsColumn(daily);
    var ac := AmountColumn(daily);
    assert forall i :: 0 <= i < |daily| ==> pc[i].key == daily[i].key && ac[i].key == daily[i].key;
    assert UniqueKeys(pc);
    assert UniqueKeys(ac);
    forall k ensures MetricAt(pc, k) == PaymentCountAt(pays, k) && MetricAt(ac, k) == AmountAt(pays, k) {
      if HasKey(pc, k) {
        var i :| 0 <= i < |pc| && pc[i].key == k;
        MetricAtUnique(pc, i);
        MetricAtUnique(ac, i);
      } else {
        assert !PaymentsHaveKey(pays, k);
        MetricAtAbsent(pc, k);
        MetricAtAbsent(ac, k);
        SumAtAbsent(PaymentCountEntries(pays), k);
        SumAtAbsent(AmountEntries(pays), k);
      }
    }
  }

  lemma {:induction false} PaymentCountEntriesBetween(pays: seq<Payment>, g: Group, lo: Day, hi: Day)
    ensures SumBetween(PaymentCountEntries(pays), g, lo, hi) == PaymentsBetween(pays, g, lo, hi)
    decreases |pays|
  {
    if |pays| > 0 {
      var init := pays[..|pays| - 1];
      PaymentCountEntriesBetween(init, g, lo, hi);
      if PaymentKey(pays[|pays| - 1]).Some? {
        var r := PaymentCountEntries(pays);
        assert r[..|r| - 1] == PaymentCountEntries(init);
      }
    }
  }

  lemma {:induction false} AmountEntriesBetween(pays: seq<Payment>, g: Group, lo: Day, hi: Day)
    ensures SumBetween(AmountEntries(pays), g, lo, hi) == AmountBetween(pays, g, lo, hi)
    decreases |pays|
  {
    if |pays| > 0 {
      var init := pays[..|pays| - 1];
      AmountEntriesBetween(init, g, lo, hi);
      if PaymentKey(pays[|pays| - 1]).Some? {
        var r := AmountEntries(pays);
        assert r[..|r| - 1] == AmountEntries(init);
      }
    }
  }

  /** Summing the daily payment columns of a group over a day range gives
      the number and the amount of the group's payments in that range. */
  lemma PaymentColumnsBetween(pays: seq<Payment>, g: Group, lo: Day, hi: Day)
    ensures DaySum(PaymentsColumn(PaymentDaily(pays)), g, lo, hi) == PaymentsBetween(pays, g, lo, hi)
    ensures DaySum(AmountColumn(PaymentDaily(pays)), g, lo, hi) == AmountBetween(pays, g, lo, hi)
  {
    PaymentsColumnBetween(pays, g, lo, hi);
    AmountColumnBetween(pays, g, lo, hi);
  }

  lemma PaymentsColumnBetween(pays: seq<Payment>, g: Group, lo: Day, hi: Day)
    ensures DaySum(PaymentsColumn(PaymentDaily(pays)), g, lo, hi) == PaymentsBetween(pays, g, lo, hi)
  {
    PaymentColumns(pays);
    DaySumOfSums(PaymentsColumn(PaymentDaily(pays)), PaymentCountEntries(pays), g, lo, hi);
    PaymentCountEntriesBetween(pays, g, lo, hi);
  }

  lemma AmountColumnBetween(pays: seq<Payment>, g: Group, lo: Day, hi: Day)
    ensures DaySum(AmountColumn(PaymentDaily(pays)), g, lo, hi) == AmountBetween(pays, g, lo, hi)
  {
    PaymentColumns(pays);
    DaySumOfSums(AmountColumn(PaymentDaily(pays)), AmountEntries(pays), g, lo, hi);
    AmountEntriesBetween(pays, g, lo, hi);
  }

  /** The daily payment-count column holds exactly the keys some payment
      has. This is one clause of `PaymentColumns`, stated alone so that a
      caller does not take on the other five quantified facts. */
  lemma PaymentsColumnKeys(pays: seq<Payment>)
    ensures UniqueKeys(PaymentsColumn(PaymentDaily(pays)))
    ensures forall k :: HasKey(PaymentsColumn(PaymentDaily(pays)), k) <==> PaymentsHaveKey(pays, k)
  {
    PaymentColumns(pays);
  }

  /** So does the daily amount column (again one clause of
      `PaymentColumns`, stated alone). */
  lemma AmountColumnKeys(pays: seq<Payment>)
    ensures UniqueKeys(AmountColumn(PaymentDaily(pays)))
    ensures forall k :: HasKey(AmountColumn(PaymentDaily(pays)), k) <==> PaymentsHaveKey(pays, k)
  {
    PaymentColumns(pays);
  }
}
