/** Keyed one-metric tables (sequences of MetricRow) and the lookups the
    rest of the pipeline uses on them. */
module Tables {
  import opened Records

  /** Some row of `rows` has key `k`. */
  predicate HasKey(rows: seq<MetricRow>, k: Key) {
    exists i :: 0 <= i < |rows| && rows[i].key == k
  }

  /** No key occurs twice: the grain of every daily and window table. */
  predicate UniqueKeys(rows: seq<MetricRow>) {
    forall i, j :: 0 <= i < j < |rows| ==> rows[i].key != rows[j].key
  }

  /** Some row of `rows` belongs to group `g`. */
  predicate HasGroup(rows: seq<MetricRow>, g: Group) {
    exists i :: 0 <= i < |rows| && rows[i].key.group == g
  }

  /** The metric recorded under `k`, or 0 when no row has that key
      (the first matching row when keys repeat). */
  function MetricAt(rows: seq<MetricRow>, k: Key): int {
    if |rows| == 0 then 0
    else if rows[0].key == k then rows[0].value
    else MetricAt(rows[1..], k)
  }

  /** A key no row has reads as 0. */
  lemma {:induction false} MetricAtAbsent(rows: seq<MetricRow>, k: Key)
    requires !HasKey(rows, k)
    ensures MetricAt(rows, k) == 0
    decreases |rows|
  {
    if |rows| > 0 {
      assert forall i :: 1 <= i < |rows| ==> rows[1..][i - 1] == rows[i];
      MetricAtAbsent(rows[1..], k);
    }
  }

  /** A lookup returns a value some row holds, or 0. */
  lemma {:induction false} MetricAtFound(rows: seq<MetricRow>, k: Key)
    ensures MetricAt(rows, k) == 0 || exists i :: 0 <= i < |rows| && rows[i].key == k && rows[i].value == MetricAt(rows, k)
    decreases |rows|
  {
    if |rows| > 0 && rows[0].key != k {
      MetricAtFound(rows[1..], k);
      if MetricAt(rows, k) != 0 {
        var i :| 0 <= i < |rows[1..]| && rows[1..][i].key == k && rows[1..][i].value == MetricAt(rows, k);
        assert rows[i + 1] == rows[1..][i];
      }
    }
  }

  /** With unique keys, the lookup returns the one row holding the key. */
  lemma {:induction false} MetricAtUnique(rows: seq<MetricRow>, i: int)
    requires UniqueKeys(rows)
    requires 0 <= i < |rows|
    ensures MetricAt(rows, rows[i].key) == rows[i].value
    decreases |rows|
  {
    if i > 0 {
      assert rows[0].key != rows[i].key;
      assert rows[1..][i - 1] == rows[i];
      MetricAtUnique(rows[1..], i - 1);
    }
  }

  /** Sum of every value of the table. */
  function Total(rows: seq<MetricRow>): int {
    if |rows| == 0 then 0 else Total(rows[..|rows| - 1]) + rows[|rows| - 1].value
  }

  /** Prepending a row adds its value to the total. */
  lemma {:induction false} TotalCons(r: MetricRow, rows: seq<MetricRow>)
    ensures Total([r] + rows) == r.value + Total(rows)
    decreases |rows|
  {
    if |rows| > 0 {
      var s := [r] + rows;
      assert s[..|s| - 1] == [r] + rows[..|rows| - 1];
      TotalCons(r, rows[..|rows| - 1]);
    }
  }

  /** Appending a row adds exactly its key. */
  lemma HasKeyAppend(rows: seq<MetricRow>, r: MetricRow)
    ensures forall k :: HasKey(rows + [r], k) <==> HasKey(rows, k) || r.key == k
  {
    var s := rows + [r];
    assert forall i :: 0 <= i < |rows| ==> s[i] == rows[i];
    assert s[|rows|] == r;
  }

  /** Dropping the first row of a table with unique keys leaves unique keys,
      none of which is the dropped row's key. */
  lemma UniqueKeysTail(rows: seq<MetricRow>)
    requires UniqueKeys(rows) && |rows| > 0
    ensures UniqueKeys(rows[1..])
    ensures !HasKey(rows[1..], rows[0].key)
  {
    var rest := rows[1..];
    forall i, j | 0 <= i < j < |rest| ensures rest[i].key != rest[j].key {
      assert rest[i] == rows[i + 1] && rest[j] == rows[j + 1];
    }
    forall i | 0 <= i < |rest| ensures rest[i].key != rows[0].key {
      assert rest[i] == rows[i + 1];
    }
  }

  /** Appending a row adds its value to its key's sum and to the total. */
  lemma SumAtAppend(rows: seq<MetricRow>, r: MetricRow)
    ensures forall k :: SumAt(rows + [r], k) == SumAt(rows, k) + (if r.key == k then r.value else 0)
    ensures Total(rows + [r]) == Total(rows) + r.value
  {
    assert (rows + [r])[..|rows|] == rows;
  }

  /** Appending a row adds exactly its group. */
  lemma HasGroupAppend(rows: seq<MetricRow>, r: MetricRow)
    ensures forall g :: HasGroup(rows + [r], g) <==> HasGroup(rows, g) || r.key.group == g
  {
    var s := rows + [r];
    assert forall i :: 0 <= i < |rows| ==> s[i] == rows[i];
    assert s[|rows|] == r;
  }

  /** Prepending a row adds exactly its key. */
  lemma HasKeyCons(r: MetricRow, rows: seq<MetricRow>)
    ensures forall k :: HasKey([r] + rows, k) <==> HasKey(rows, k) || r.key == k
  {
    var s := [r] + rows;
    assert forall i :: 1 <= i < |s| ==> s[i] == rows[i - 1];
    assert s[0] == r;
    forall k | HasKey(rows, k) ensures HasKey(s, k) {
      var i :| 0 <= i < |rows| && rows[i].key == k;
      assert s[i + 1] == rows[i];
    }
  }

  /** Sum of the values of the rows whose key is `k` (the aggregate
      a group-by computes for `k`). */
  function SumAt(rows: seq<MetricRow>, k: Key): int {
    if |rows| == 0 then 0
    else SumAt(rows[..|rows| - 1], k) + (if rows[|rows| - 1].key == k then rows[|rows| - 1].value else 0)
  }

  /** A key no row has sums to 0. */
  lemma {:induction false} SumAtAbsent(rows: seq<MetricRow>, k: Key)
    requires !HasKey(rows, k)
    ensures SumAt(rows, k) == 0
  {
    if |rows| > 0 {
      var init := rows[..|rows| - 1];
      assert forall i :: 0 <= i < |init| ==> init[i] == rows[i];
      SumAtAbsent(init, k);
    }
  }

  /** Sum of the values of rows of group `g` whose day lies in [lo, hi). */
  function SumBetween(rows: seq<MetricRow>, g: Group, lo: Day, hi: Day): int {
    if |rows| == 0 then 0
    else
      var r := rows[|rows| - 1];
      SumBetween(rows[..|rows| - 1], g, lo, hi) + (if r.key.group == g && lo <= r.key.day < hi then r.value else 0)
  }

  /** Sum of the per-day lookups of group `g` over the calendar days [lo, hi). */
  function DaySum(rows: seq<MetricRow>, g: Group, lo: Day, hi: Day): int
    decreases hi - lo
  {
    if hi <= lo then 0 else DaySum(rows, g, lo, hi - 1) + MetricAt(rows, Key(g, hi - 1))
  }

  /** Splitting a day range splits its sum. */
  lemma {:induction false} DaySumSplit(rows: seq<MetricRow>, g: Group, lo: Day, mid: Day, hi: Day)
    requires lo <= mid <= hi
    ensures DaySum(rows, g, lo, hi) == DaySum(rows, g, lo, mid) + DaySum(rows, g, mid, hi)
    decreases hi - mid
  {
    if hi > mid {
      DaySumSplit(rows, g, lo, mid, hi - 1);
    }
  }

  /** Days with no recorded metric add nothing to a day range. */
  lemma {:induction false} DaySumOfAbsentDays(rows: seq<MetricRow>, g: Group, lo: Day, hi: Day)
    requires forall d :: lo <= d < hi ==> !HasKey(rows, Key(g, d))
    ensures DaySum(rows, g, lo, hi) == 0
    decreases hi - lo
  {
    if hi > lo {
      DaySumOfAbsentDays(rows, g, lo, hi - 1);
      MetricAtAbsent(rows, Key(g, hi - 1));
    }
  }

  /** Two tables that agree on every day of group `g` in [lo, hi) have the
      same sum over that range. */
  lemma {:induction false} DaySumCongruent(a: seq<MetricRow>, b: seq<MetricRow>, g: Group, lo: Day, hi: Day)
    requires forall d :: lo <= d < hi ==> MetricAt(a, Key(g, d)) == MetricAt(b, Key(g, d))
    ensures DaySum(a, g, lo, hi) == DaySum(b, g, lo, hi)
    decreases hi - lo
  {
    if hi > lo {
      DaySumCongruent(a, b, g, lo, hi - 1);
    }
  }

  /** Summing non-negative metrics gives a non-negative sum. */
  lemma {:induction false} DaySumNonNegative(rows: seq<MetricRow>, g: Group, lo: Day, hi: Day)
    requires forall i :: 0 <= i < |rows| ==> rows[i].value >= 0
    ensures DaySum(rows, g, lo, hi) >= 0
    decreases hi - lo
  {
    if hi > lo {
      DaySumNonNegative(rows, g, lo, hi - 1);
      MetricAtFound(rows, Key(g, hi - 1));
    }
  }

  /** The per-day sum over a group-by table equals the sum of the raw
      entries that fall in the same day range. */
  lemma {:induction false} DaySumOfSums(agg: seq<MetricRow>, entries: seq<MetricRow>, g: Group, lo: Day, hi: Day)
    requires forall k :: MetricAt(agg, k) == SumAt(entries, k)
    ensures DaySum(agg, g, lo, hi) == SumBetween(entries, g, lo, hi)
    decreases hi - lo
  {
    if hi <= lo {
      SumBetweenEmptyRange(entries, g, lo, hi);
    } else {
      DaySumOfSums(agg, entries, g, lo, hi - 1);
      SumBetweenStep(entries, g, lo, hi - 1);
    }
  }

  lemma {:induction false} SumBetweenEmptyRange(rows: seq<MetricRow>, g: Group, lo: Day, hi: Day)
    requires hi <= lo
    ensures SumBetween(rows, g, lo, hi) == 0
  {
    if |rows| > 0 {
      SumBetweenEmptyRange(rows[..|rows| - 1], g, lo, hi);
    }
  }

  /** Extending a range by one day adds that day's per-key sum. */
  lemma {:induction false} SumBetweenStep(rows: seq<MetricRow>, g: Group, lo: Day, d: Day)
    requires lo <= d
    ensures SumBetween(rows, g, lo, d + 1) == SumBetween(rows, g, lo, d) + SumAt(rows, Key(g, d))
  {
    if |rows| > 0 {
      SumBetweenStep(rows[..|rows| - 1], g, lo, d);
    }
  }
}
