/** The trailing 21-day window engine. For every (user, offer) group of a
    daily table it lays out a dense day timeline from the group's first day
    to its last, fills days without a row with 0, and gives each day D the
    sum of the metric over the 21 days D-21 .. D-1: never D itself. */
module TrailingWindow {
  import opened Records
  import opened Tables
  import opened Series

  /** Length of the look-back, in days. */
  const WindowDays: nat := 21

  // ------------------------------------------------------------------ groups

  /** The distinct groups of the table, in order of first appearance. */
  function Groups(rows: seq<MetricRow>): (gs: seq<Group>)
    ensures DistinctGroups(gs)
    ensures forall g :: g in gs <==> HasGroup(rows, g)
    decreases |rows|
  {
    if |rows| == 0 then []
    else
      var init := rows[..|rows| - 1];
      var last := rows[|rows| - 1];
      assert rows == init + [last];
      HasGroupAppend(init, last);
      var prev := Groups(init);
      if last.key.group in prev then prev else prev + [last.key.group]
  }

  /** The earliest day of group `g`. */
  function FirstDay(rows: seq<MetricRow>, g: Group): (d: Day)
    requires HasGroup(rows, g)
    ensures HasKey(rows, Key(g, d))
    ensures forall i :: 0 <= i < |rows| && rows[i].key.group == g ==> d <= rows[i].key.day
    decreases |rows|
  {
    var init := rows[..|rows| - 1];
    var last := rows[|rows| - 1];
    assert rows == init + [last];
    HasGroupAppend(init, last);
    HasKeyAppend(init, last);
    assert forall i :: 0 <= i < |init| ==> rows[i] == init[i];
    if !HasGroup(init, g) then last.key.day
    else
      var d := FirstDay(init, g);
      if last.key.group == g && last.key.day < d then last.key.day else d
  }

  /** The latest day of group `g`. */
  function LastDay(rows: seq<MetricRow>, g: Group): (d: Day)
    requires HasGroup(rows, g)
    ensures HasKey(rows, Key(g, d))
    ensures forall i :: 0 <= i < |rows| && rows[i].key.group == g ==> rows[i].key.day <= d
    decreases |rows|
  {
    var init := rows[..|rows| - 1];
    var last := rows[|rows| - 1];
    assert rows == init + [last];
    HasGroupAppend(init, last);
    HasKeyAppend(init, last);
    assert forall i :: 0 <= i < |init| ==> rows[i] == init[i];
    if !HasGroup(init, g) then last.key.day
    else
      var d := LastDay(init, g);
      if last.key.group == g && last.key.day > d then last.key.day else d
  }

  /** A recorded day of a group lies between its first and last day. */
  lemma DayWithinGroup(rows: seq<MetricRow>, k: Key)
    requires HasKey(rows, k)
    ensures HasGroup(rows, k.group)
    ensures FirstDay(rows, k.group) <= k.day <= LastDay(rows, k.group)
  {
    var i :| 0 <= i < |rows| && rows[i].key == k;
  }

  /** The last day of the timeline of group `g`: its last recorded day, or
      `through` when that is given and later. */
  function SpanEnd(rows: seq<MetricRow>, g: Group, through: Option<Day>): (d: Day)
    requires HasGroup(rows, g)
    ensures d >= LastDay(rows, g)
    ensures through.Some? ==> d >= through.value
    ensures d == LastDay(rows, g) || (through.Some? && d == through.value)
  {
    var last := LastDay(rows, g);
    if through.Some? && through.value > last then through.value else last
  }

  /** Key `k` is a day of its group's dense timeline. */
  predicate InSpan(rows: seq<MetricRow>, k: Key, through: Option<Day>) {
    HasGroup(rows, k.group) && FirstDay(rows, k.group) <= k.day <= SpanEnd(rows, k.group, through)
  }

  // ------------------------------------------------------- reference value

  /** The trailing value of group `g` at day `d`: the metric summed over
      the days d-21 .. d-1, a day without a row counting 0. */
  function TrailingSum(rows: seq<MetricRow>, g: Group, d: Day): int {
    DaySum(rows, g, d - WindowDays, d)
  }

  /** `row` is the trailing-window row of a day of its group's timeline. */
  predicate TimelineRow(rows: seq<MetricRow>, row: MetricRow, through: Option<Day>) {
    InSpan(rows, row.key, through) && row.value == TrailingSum(rows, row.key.group, row.key.day)
  }

  // ------------------------------------------------------------ computation

  /** The group's metric on the n consecutive days from `lo`, 0 where no
      row exists (the reindex with fill_value=0). */
  function Dense(rows: seq<MetricRow>, g: Group, lo: Day, n: nat): (ts: seq<int>)
    ensures |ts| == n
  {
    seq(n, i requires 0 <= i < n => MetricAt(rows, Key(g, lo + i)))
  }

  /** A day before a group's first day has no row. */
  lemma BeforeFirstDay(rows: seq<MetricRow>, g: Group, d: Day)
    requires HasGroup(rows, g)
    requires d < FirstDay(rows, g)
    ensures !HasKey(rows, Key(g, d))
  {
    if HasKey(rows, Key(g, d)) {
      DayWithinGroup(rows, Key(g, d));
    }
  }

  /** Range sums over the dense series are day-range sums over the table. */
  lemma {:induction false} DenseSum(rows: seq<MetricRow>, g: Group, lo: Day, n: nat, a: int, b: int)
    requires 0 <= a <= b <= n
    ensures SumRange(Dense(rows, g, lo, n), a, b) == DaySum(rows, g, lo + a, lo + b)
    decreases b - a
  {
    if a < b {
      DenseSum(rows, g, lo, n, a, b - 1);
    }
  }

  /** The shifted rolling sum of the dense series is the trailing value of
      each day of the timeline. */
  lemma {:induction false} TimelineValues(rows: seq<MetricRow>, g: Group, n: nat)
    requires HasGroup(rows, g)
    ensures forall i :: 0 <= i < n ==>
      Shift(Rolling(Dense(rows, g, FirstDay(rows, g), n), WindowDays))[i] == TrailingSum(rows, g, FirstDay(rows, g) + i)
  {
    var lo := FirstDay(rows, g);
    var ts := Dense(rows, g, lo, n);
    ShiftedRolling(ts, WindowDays);
    forall i | 0 <= i < n
      ensures Shift(Rolling(ts, WindowDays))[i] == TrailingSum(rows, g, lo + i)
    {
      var a := Max(0, i - WindowDays);
      DenseSum(rows, g, lo, n, a, i);
      if i < WindowDays {
        forall d | lo + i - WindowDays <= d < lo
          ensures !HasKey(rows, Key(g, d))
        {
          BeforeFirstDay(rows, g, d);
        }
        DaySumOfAbsentDays(rows, g, lo + i - WindowDays, lo);
        DaySumSplit(rows, g, lo + i - WindowDays, lo, lo + i);
      }
    }
  }

  /** The output rows of one group: one per day of its timeline. */
  function GroupWindow(rows: seq<MetricRow>, g: Group, through: Option<Day>): (r: seq<MetricRow>)
    requires HasGroup(rows, g)
    ensures |r| == SpanEnd(rows, g, through) - FirstDay(rows, g) + 1
    ensures forall i :: 0 <= i < |r| ==>
      r[i].key == Key(g, FirstDay(rows, g) + i) && r[i].value == TrailingSum(rows, g, FirstDay(rows, g) + i)
    ensures forall i :: 0 <= i < |r| ==> r[i].key.group == g && TimelineRow(rows, r[i], through)
  {
    var lo := FirstDay(rows, g);
    var n := SpanEnd(rows, g, through) - lo + 1;
    var prev := Shift(Rolling(Dense(rows, g, lo, n), WindowDays));
    TimelineValues(rows, g, n);
    seq(n, i requires 0 <= i < n => MetricRow(Key(g, lo + i), prev[i]))
  }

  /** The output rows of the groups `gs`, one group after the other. */
  function Concat(rows: seq<MetricRow>, gs: seq<Group>, through: Option<Day>): seq<MetricRow>
    requires forall g :: g in gs ==> HasGroup(rows, g)
    decreases |gs|
  {
    if |gs| == 0 then [] else GroupWindow(rows, gs[0], through) + Concat(rows, gs[1..], through)
  }

  /** Every row of `s` is a timeline row of one of the groups `gs`. */
  predicate TimelineRowsOf(rows: seq<MetricRow>, gs: seq<Group>, through: Option<Day>, s: seq<MetricRow>) {
    forall i :: 0 <= i < |s| ==> s[i].key.group in gs && TimelineRow(rows, s[i], through)
  }

  /** `s` has a row for every day of the timelines of the groups `gs`. */
  ghost predicate CoversSpans(rows: seq<MetricRow>, gs: seq<Group>, through: Option<Day>, s: seq<MetricRow>) {
    forall k: Key :: k.group in gs && InSpan(rows, k, through) ==> HasKey(s, k)
  }

  /** No group is listed twice. */
  predicate DistinctGroups(gs: seq<Group>) {
    forall i, j :: 0 <= i < j < |gs| ==> gs[i] != gs[j]
  }

  /** What ConcatRows states of the concatenation `s` of the groups `gs`. */
  ghost predicate ConcatInv(rows: seq<MetricRow>, gs: seq<Group>, through: Option<Day>, s: seq<MetricRow>) {
    && TimelineRowsOf(rows, gs, through, s)
    && CoversSpans(rows, gs, through, s)
    && (DistinctGroups(gs) ==> UniqueKeys(s))
  }

  /** One step of Concat: `r` is the window of the first group followed by
      the rows `tail` of the others. */
  predicate ConcatStepped(rows: seq<MetricRow>, gs: seq<Group>, through: Option<Day>, head: seq<MetricRow>, tail: seq<MetricRow>, r: seq<MetricRow>) {
    && |gs| > 0
    && (forall g :: g in gs ==> HasGroup(rows, g))
    && head == GroupWindow(rows, gs[0], through)
    && r == head + tail
  }

  /** The concatenation holds timeline rows of the listed groups only, every
      day of their timelines, and no key twice when no group is listed twice. */
  lemma {:induction false} ConcatRows(rows: seq<MetricRow>, gs: seq<Group>, through: Option<Day>)
    requires forall g :: g in gs ==> HasGroup(rows, g)
    ensures ConcatInv(rows, gs, through, Concat(rows, gs, through))
    decreases |gs|
  {
    if |gs| > 0 {
      var head := GroupWindow(rows, gs[0], through);
      var tail := Concat(rows, gs[1..], through);
      ConcatRows(rows, gs[1..], through);
      ConcatStep(rows, gs, through, head, tail, head + tail);
    }
  }

  lemma ConcatStep(rows: seq<MetricRow>, gs: seq<Group>, through: Option<Day>, head: seq<MetricRow>, tail: seq<MetricRow>, r: seq<MetricRow>)
    requires ConcatStepped(rows, gs, through, head, tail, r)
    requires ConcatInv(rows, gs[1..], through, tail)
    ensures ConcatInv(rows, gs, through, r)
  {
    ConcatStepValues(rows, gs, through, head, tail, r);
    ConcatStepCover(rows, gs, through, head, tail, r);
    if DistinctGroups(gs) {
      assert DistinctGroups(gs[1..]) by {
        forall i, j | 0 <= i < j < |gs[1..]| ensures gs[1..][i] != gs[1..][j] {
          assert gs[1..][i] == gs[i + 1] && gs[1..][j] == gs[j + 1];
        }
      }
      ConcatStepUnique(rows, gs, through, head, tail, r);
    }
  }

  lemma ConcatStepValues(rows: seq<MetricRow>, gs: seq<Group>, through: Option<Day>, head: seq<MetricRow>, tail: seq<MetricRow>, r: seq<MetricRow>)
    requires ConcatStepped(rows, gs, through, head, tail, r)
    requires TimelineRowsOf(rows, gs[1..], through, tail)
    ensures TimelineRowsOf(rows, gs, through, r)
  {
    forall i | 0 <= i < |r|
      ensures r[i].key.group in gs && TimelineRow(rows, r[i], through)
    {
      if i < |head| {
        assert r[i] == head[i];
      } else {
        var t := tail[i - |head|];
        assert r[i] == t;
        assert t.key.group in gs[1..];
      }
    }
  }

  lemma ConcatStepCover(rows: seq<MetricRow>, gs: seq<Group>, through: Option<Day>, head: seq<MetricRow>, tail: seq<MetricRow>, r: seq<MetricRow>)
    requires ConcatStepped(rows, gs, through, head, tail, r)
    requires CoversSpans(rows, gs[1..], through, tail)
    ensures CoversSpans(rows, gs, through, r)
  {
    var g := gs[0];
    var lo := FirstDay(rows, g);
    forall k: Key | k.group in gs && InSpan(rows, k, through) ensures HasKey(r, k) {
      if k.group == g {
        assert r[k.day - lo] == head[k.day - lo];
        assert r[k.day - lo].key == k;
      } else {
        assert k.group in gs[1..];
        var j :| 0 <= j < |tail| && tail[j].key == k;
        assert r[|head| + j] == tail[j];
      }
    }
  }

  lemma ConcatStepUnique(rows: seq<MetricRow>, gs: seq<Group>, through: Option<Day>, head: seq<MetricRow>, tail: seq<MetricRow>, r: seq<MetricRow>)
    requires ConcatStepped(rows, gs, through, head, tail, r)
    requires TimelineRowsOf(rows, gs[1..], through, tail)
    requires DistinctGroups(gs) && UniqueKeys(tail)
    ensures UniqueKeys(r)
  {
    var g := gs[0];
    var lo := FirstDay(rows, g);
    assert g !in gs[1..] by {
      forall j | 1 <= j < |gs| ensures gs[j] != g { }
      assert forall x :: x in gs[1..] ==> exists j :: 1 <= j < |gs| && gs[j] == x by {
        forall x | x in gs[1..] ensures exists j :: 1 <= j < |gs| && gs[j] == x {
          var m :| 0 <= m < |gs[1..]| && gs[1..][m] == x;
          assert gs[m + 1] == x;
        }
      }
    }
    forall i, j | 0 <= i < j < |r| ensures r[i].key != r[j].key {
      if j < |head| {
        assert r[i] == head[i] && r[j] == head[j];
      } else if i < |head| {
        assert r[i] == head[i] && r[j] == tail[j - |head|];
      } else {
        assert r[i] == tail[i - |head|] && r[j] == tail[j - |head|];
      }
    }
  }

  /** `ventana_prev_21d`: the trailing-window table of a daily table.
      `through` = None is the computation as written; `Some(t)` lets every
      group's timeline run on to day `t` (the corrected variant). Empty input
      gives an empty table; a repeated (user, offer, day) key fails, as
      reindexing a series with repeated day labels does. */
  function Window(rows: seq<MetricRow>, through: Option<Day>): (r: Result<seq<MetricRow>>)
    ensures |rows| == 0 ==> r == Ok([])
    ensures r.Ok? <==> UniqueKeys(rows)
  {
    if |rows| == 0 then Ok([])
    else if !UniqueKeys(rows) then Err(DuplicateDay)
    else Ok(Concat(rows, Groups(rows), through))
  }

  /** The window table has unique keys, holds exactly the days of every
      group's timeline, and gives each its trailing value. */
  lemma WindowRows(rows: seq<MetricRow>, through: Option<Day>)
    requires UniqueKeys(rows)
    ensures UniqueKeys(Window(rows, through).value)
    ensures forall k :: HasKey(Window(rows, through).value, k) <==> InSpan(rows, k, through)
    ensures forall i :: 0 <= i < |Window(rows, through).value| ==>
      TimelineRow(rows, Window(rows, through).value[i], through)
  {
    var out := Window(rows, through).value;
    if |rows| > 0 {
      ConcatRows(rows, Groups(rows), through);
      assert forall k :: HasKey(out, k) ==> InSpan(rows, k, through);
    }
  }

  // ---------------------------------------------------------------- lemmas

  /** Looking a key up in the window table gives its trailing value when
      the key is a day of its group's timeline, and 0 otherwise (what a left
      join with 0-fill reads from it). */
  lemma WindowLookup(rows: seq<MetricRow>, through: Option<Day>, k: Key)
    requires UniqueKeys(rows)
    ensures Window(rows, through).Ok?
    ensures MetricAt(Window(rows, through).value, k) ==
      if InSpan(rows, k, through) then TrailingSum(rows, k.group, k.day) else 0
  {
    var out := Window(rows, through).value;
    WindowRows(rows, through);
    if InSpan(rows, k, through) {
      var i :| 0 <= i < |out| && out[i].key == k;
      MetricAtUnique(out, i);
    } else {
      MetricAtAbsent(out, k);
    }
  }

  /** The first day of a timeline has no history: its value is 0. */
  lemma FirstDayHasNoHistory(rows: seq<MetricRow>, g: Group)
    requires HasGroup(rows, g)
    ensures TrailingSum(rows, g, FirstDay(rows, g)) == 0
  {
    var lo := FirstDay(rows, g);
    forall d | lo - WindowDays <= d < lo ensures !HasKey(rows, Key(g, d)) {
      BeforeFirstDay(rows, g, d);
    }
    DaySumOfAbsentDays(rows, g, lo - WindowDays, lo);
  }

  /** Moving one day forward adds the metric of the day just left behind
      and drops the one that falls out of the window. */
  lemma TrailingStep(rows: seq<MetricRow>, g: Group, d: Day)
    ensures TrailingSum(rows, g, d + 1) ==
      TrailingSum(rows, g, d) + MetricAt(rows, Key(g, d)) - MetricAt(rows, Key(g, d - WindowDays))
  {
    DaySumSplit(rows, g, d - WindowDays, d - WindowDays + 1, d);
    DaySumSplit(rows, g, d + 1 - WindowDays, d, d + 1);
  }

  /** No leakage: the value at day `d` depends only on the 21 days before
      it, so two tables that agree on those days agree at `d`, whatever
      they hold on day `d` itself or later. */
  lemma NoLeakage(a: seq<MetricRow>, b: seq<MetricRow>, g: Group, d: Day)
    requires forall e :: d - WindowDays <= e < d ==> MetricAt(a, Key(g, e)) == MetricAt(b, Key(g, e))
    ensures TrailingSum(a, g, d) == TrailingSum(b, g, d)
  {
    DaySumCongruent(a, b, g, d - WindowDays, d);
  }

  /** Days more than 21 days back do not count. */
  lemma OldDaysDoNotCount(rows: seq<MetricRow>, g: Group, d: Day)
    requires forall e :: d - WindowDays <= e < d ==> !HasKey(rows, Key(g, e))
    ensures TrailingSum(rows, g, d) == 0
  {
    DaySumOfAbsentDays(rows, g, d - WindowDays, d);
  }

  /** Non-negative daily metrics give non-negative window values. */
  lemma WindowNonNegative(rows: seq<MetricRow>, through: Option<Day>)
    requires UniqueKeys(rows)
    requires forall i :: 0 <= i < |rows| ==> rows[i].value >= 0
    ensures Window(rows, through).Ok?
    ensures forall i :: 0 <= i < |Window(rows, through).value| ==> Window(rows, through).value[i].value >= 0
  {
    var out := Window(rows, through).value;
    WindowRows(rows, through);
    forall i | 0 <= i < |out| ensures out[i].value >= 0 {
      DaySumNonNegative(rows, out[i].key.group, out[i].key.day - WindowDays, out[i].key.day);
    }
  }

  /** Extending the timelines only adds rows: every row of the table as
      computed is also a row of the extended table, with the same value. */
  lemma ExtendedWindowAgrees(rows: seq<MetricRow>, t: Day, k: Key)
    requires UniqueKeys(rows)
    requires InSpan(rows, k, None)
    ensures InSpan(rows, k, Some(t))
    ensures MetricAt(Window(rows, None).value, k) == MetricAt(Window(rows, Some(t)).value, k)
  {
    WindowLookup(rows, None, k);
    WindowLookup(rows, Some(t), k);
  }

  /** Before a group's first day, or for a group with no rows at all, the
      trailing value is 0. */
  lemma BeforeSpanIsZero(rows: seq<MetricRow>, g: Group, d: Day)
    requires !HasGroup(rows, g) || d <= FirstDay(rows, g)
    ensures TrailingSum(rows, g, d) == 0
  {
    forall e | d - WindowDays <= e < d ensures !HasKey(rows, Key(g, e)) {
      if HasKey(rows, Key(g, e)) {
        DayWithinGroup(rows, Key(g, e));
      }
    }
    DaySumOfAbsentDays(rows, g, d - WindowDays, d);
  }

  /** As computed, the window table holds the trailing value of a day up to
      the group's last recorded day, and nothing after it: a day later than
      every row of its group reads 0 whatever its history. */
  lemma AsComputedLookup(rows: seq<MetricRow>, k: Key)
    requires UniqueKeys(rows)
    ensures Window(rows, None).Ok?
    ensures MetricAt(Window(rows, None).value, k) ==
      if HasGroup(rows, k.group) && k.day <= LastDay(rows, k.group) then TrailingSum(rows, k.group, k.day) else 0
  {
    WindowLookup(rows, None, k);
    if HasGroup(rows, k.group) && k.day < FirstDay(rows, k.group) {
      BeforeSpanIsZero(rows, k.group, k.day);
    }
  }

  /** With every timeline run on to day `t`, the table holds the trailing
      value of every day up to `t`, of every group. */
  lemma ExtendedLookup(rows: seq<MetricRow>, t: Day, k: Key)
    requires UniqueKeys(rows)
    requires k.day <= t
    ensures Window(rows, Some(t)).Ok?
    ensures MetricAt(Window(rows, Some(t)).value, k) == TrailingSum(rows, k.group, k.day)
  {
    WindowLookup(rows, Some(t), k);
    if !InSpan(rows, k, Some(t)) {
      BeforeSpanIsZero(rows, k.group, k.day);
    }
  }

  /** A group has a row on or after day `d` exactly when its last day is
      not before `d`. */
  lemma ActiveUntil(rows: seq<MetricRow>, g: Group, d: Day)
    ensures (HasGroup(rows, g) && d <= LastDay(rows, g)) <==>
      exists j :: 0 <= j < |rows| && rows[j].key.group == g && rows[j].key.day >= d
  {
    if HasGroup(rows, g) && d <= LastDay(rows, g) {
      var j :| 0 <= j < |rows| && rows[j].key == Key(g, LastDay(rows, g));
    }
    if exists j :: 0 <= j < |rows| && rows[j].key.group == g && rows[j].key.day >= d {
      var j :| 0 <= j < |rows| && rows[j].key.group == g && rows[j].key.day >= d;
      assert HasGroup(rows, g);
    }
  }

  // ----------------------------------------------------- group isolation

  /** The rows of group `g`, in order. */
  function OfGroup(rows: seq<MetricRow>, g: Group): (r: seq<MetricRow>)
    ensures forall i :: 0 <= i < |r| ==> r[i].key.group == g
    ensures forall k: Key :: HasKey(r, k) <==> HasKey(rows, k) && k.group == g
    ensures forall k: Key :: k.group == g ==> MetricAt(r, k) == MetricAt(rows, k)
    ensures UniqueKeys(rows) ==> UniqueKeys(r)
    decreases |rows|
  {
    if |rows| == 0 then []
    else
      var rest := OfGroup(rows[1..], g);
      var r := if rows[0].key.group == g then [rows[0]] + rest else rest;
      OfGroupStep(rows, g, rest, r);
      r
  }

  lemma OfGroupStep(rows: seq<MetricRow>, g: Group, rest: seq<MetricRow>, r: seq<MetricRow>)
    requires |rows| > 0
    requires forall i :: 0 <= i < |rest| ==> rest[i].key.group == g
    requires forall k: Key :: HasKey(rest, k) <==> HasKey(rows[1..], k) && k.group == g
    requires forall k: Key :: k.group == g ==> MetricAt(rest, k) == MetricAt(rows[1..], k)
    requires UniqueKeys(rows[1..]) ==> UniqueKeys(rest)
    requires r == if rows[0].key.group == g then [rows[0]] + rest else rest
    ensures forall i :: 0 <= i < |r| ==> r[i].key.group == g
    ensures forall k: Key :: HasKey(r, k) <==> HasKey(rows, k) && k.group == g
    ensures forall k: Key :: k.group == g ==> MetricAt(r, k) == MetricAt(rows, k)
    ensures UniqueKeys(rows) ==> UniqueKeys(r)
  {
    OfGroupStepKeys(rows, g, rest, r);
    OfGroupStepValues(rows, g, rest, r);
    if UniqueKeys(rows) {
      OfGroupStepUnique(rows, g, rest, r);
    }
  }

  lemma OfGroupStepKeys(rows: seq<MetricRow>, g: Group, rest: seq<MetricRow>, r: seq<MetricRow>)
    requires |rows| > 0
    requires forall i :: 0 <= i < |rest| ==> rest[i].key.group == g
    requires forall k: Key :: HasKey(rest, k) <==> HasKey(rows[1..], k) && k.group == g
    requires r == if rows[0].key.group == g then [rows[0]] + rest else rest
    ensures forall i :: 0 <= i < |r| ==> r[i].key.group == g
    ensures forall k: Key :: HasKey(r, k) <==> HasKey(rows, k) && k.group == g
  {
    HasKeyCons(rows[0], rows[1..]);
    assert rows == [rows[0]] + rows[1..];
    if rows[0].key.group == g {
      HasKeyCons(rows[0], rest);
      assert forall i :: 1 <= i < |r| ==> r[i] == rest[i - 1];
    }
  }

  lemma OfGroupStepValues(rows: seq<MetricRow>, g: Group, rest: seq<MetricRow>, r: seq<MetricRow>)
    requires |rows| > 0
    requires forall k: Key :: k.group == g ==> MetricAt(rest, k) == MetricAt(rows[1..], k)
    requires r == if rows[0].key.group == g then [rows[0]] + rest else rest
    ensures forall k: Key :: k.group == g ==> MetricAt(r, k) == MetricAt(rows, k)
  {
    if rows[0].key.group == g {
      assert r[1..] == rest;
    }
  }

  lemma OfGroupStepUnique(rows: seq<MetricRow>, g: Group, rest: seq<MetricRow>, r: seq<MetricRow>)
    requires |rows| > 0
    requires UniqueKeys(rows)
    requires forall k: Key :: HasKey(rest, k) <==> HasKey(rows[1..], k) && k.group == g
    requires UniqueKeys(rows[1..]) ==> UniqueKeys(rest)
    requires r == if rows[0].key.group == g then [rows[0]] + rest else rest
    ensures UniqueKeys(r)
  {
    UniqueKeysTail(rows);
    if rows[0].key.group == g {
      forall i, j | 0 <= i < j < |r| ensures r[i].key != r[j].key {
        if i == 0 {
          assert r[j] == rest[j - 1];
          assert HasKey(rest, r[j].key);
        } else {
          assert r[i] == rest[i - 1] && r[j] == rest[j - 1];
        }
      }
    }
  }

  /** Tables that hold the same keys of group `g` give the group the same
      first and last day. */
  lemma SameGroupDays(a: seq<MetricRow>, b: seq<MetricRow>, g: Group)
    requires forall d :: HasKey(a, Key(g, d)) <==> HasKey(b, Key(g, d))
    requires HasGroup(a, g)
    ensures HasGroup(b, g)
    ensures FirstDay(a, g) == FirstDay(b, g) && LastDay(a, g) == LastDay(b, g)
  {
    var i :| 0 <= i < |a| && a[i].key.group == g;
    assert HasKey(a, Key(g, a[i].key.day));
    DayWithinGroup(b, Key(g, FirstDay(a, g)));
    DayWithinGroup(a, Key(g, FirstDay(b, g)));
    DayWithinGroup(b, Key(g, LastDay(a, g)));
    DayWithinGroup(a, Key(g, LastDay(b, g)));
  }

  /** Groups are independent: the window table computed from one group's
      rows alone has exactly the keys of that group in the table computed
      from all rows, holds the same value at each of them, and has no row
      of any other group. */
  lemma GroupIsolation(rows: seq<MetricRow>, g: Group, through: Option<Day>, k: Key)
    requires UniqueKeys(rows)
    ensures Window(OfGroup(rows, g), through).Ok? && Window(rows, through).Ok?
    ensures HasKey(Window(OfGroup(rows, g), through).value, k) <==>
      k.group == g && HasKey(Window(rows, through).value, k)
    ensures MetricAt(Window(OfGroup(rows, g), through).value, k) ==
      if k.group == g then MetricAt(Window(rows, through).value, k) else 0
  {
    var own := OfGroup(rows, g);
    WindowRows(own, through);
    WindowRows(rows, through);
    WindowLookup(own, through, k);
    WindowLookup(rows, through, k);
    if k.group == g {
      OwnSpan(rows, g, through, k);
      OwnTrailing(rows, g, k.day);
    } else {
      assert !HasGroup(own, k.group);
    }
  }

  lemma OwnSpan(rows: seq<MetricRow>, g: Group, through: Option<Day>, k: Key)
    requires k.group == g
    ensures InSpan(OfGroup(rows, g), k, through) <==> InSpan(rows, k, through)
  {
    var own := OfGroup(rows, g);
    OwnGroup(rows, g);
    if HasGroup(rows, g) {
      SameGroupDays(own, rows, g);
      assert SpanEnd(own, g, through) == SpanEnd(rows, g, through);
    }
  }

  lemma OwnGroup(rows: seq<MetricRow>, g: Group)
    ensures HasGroup(OfGroup(rows, g), g) <==> HasGroup(rows, g)
  {
    var own := OfGroup(rows, g);
    if HasGroup(rows, g) {
      var i :| 0 <= i < |rows| && rows[i].key.group == g;
      assert HasKey(rows, rows[i].key);
      assert HasKey(own, rows[i].key);
      var j :| 0 <= j < |own| && own[j].key == rows[i].key;
    }
    if HasGroup(own, g) {
      var j :| 0 <= j < |own| && own[j].key.group == g;
      assert HasKey(own, own[j].key);
      var i :| 0 <= i < |rows| && rows[i].key == own[j].key;
    }
  }

  lemma OwnTrailing(rows: seq<MetricRow>, g: Group, d: Day)
    ensures TrailingSum(OfGroup(rows, g), g, d) == TrailingSum(rows, g, d)
  {
    var own := OfGroup(rows, g);
    assert forall e :: MetricAt(own, Key(g, e)) == MetricAt(rows, Key(g, e));
    NoLeakage(own, rows, g, d);
  }

  /** The extended table read at a key up to `t`, stated for any value the
      trailing sum is known to equal. */
  lemma ExtendedValue(rows: seq<MetricRow>, t: Day, k: Key, v: int)
    requires UniqueKeys(rows)
    requires k.day <= t
    requires DaySum(rows, k.group, k.day - WindowDays, k.day) == v
    ensures Window(rows, Some(t)).Ok?
    ensures MetricAt(Window(rows, Some(t)).value, k) == v
  {
    var ts := TrailingSum(rows, k.group, k.day);
    assert ts == v;
    ExtendedLookup(rows, t, k);
    assert MetricAt(Window(rows, Some(t)).value, k) == ts;
  }

  /** The table as computed read at a key, stated for any value the
      trailing sum is known to equal. */
  lemma AsComputedValue(rows: seq<MetricRow>, k: Key, v: int)
    requires UniqueKeys(rows)
    requires DaySum(rows, k.group, k.day - WindowDays, k.day) == v
    ensures Window(rows, None).Ok?
    ensures MetricAt(Window(rows, None).value, k) ==
      if exists j :: 0 <= j < |rows| && rows[j].key.group == k.group && rows[j].key.day >= k.day then v else 0
  {
    var ts := TrailingSum(rows, k.group, k.day);
    assert ts == v;
    ActiveUntil(rows, k.group, k.day);
    AsComputedLookup(rows, k);
  }
}
