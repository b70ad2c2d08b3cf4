/** Dataset assembly: the target-week cut, the `clicked` label, the left
    joins of the four trailing features with 0-fill, and the final sort. */
module Assembly {
  import opened Records
  import opened Tables
  import opened Aggregation
  import opened TrailingWindow
  import opened Ordering

  /** The target week is the latest impression day and the six days before it. */
  const WeekLookback: nat := 6

  // --------------------------------------------------------- target week

  /** The latest day of a non-empty event table. */
  function MaxDay(evs: seq<Event>): (d: Day)
    requires |evs| > 0
    ensures forall i :: 0 <= i < |evs| ==> evs[i].day <= d
    ensures exists i :: 0 <= i < |evs| && evs[i].day == d
  {
    if |evs| == 1 then evs[0].day
    else
      var m := MaxDay(evs[1..]);
      assert forall i :: 1 <= i < |evs| ==> evs[1..][i - 1] == evs[i];
      if evs[0].day >= m then evs[0].day else m
  }

  predicate InWeek(e: Event, maxDay: Day) {
    maxDay - WeekLookback <= e.day <= maxDay
  }

  /** The events of the week ending on `maxDay`, in their original order. */
  function Week(evs: seq<Event>, maxDay: Day): (w: seq<Event>)
    ensures forall e :: multiset(w)[e] == if InWeek(e, maxDay) then multiset(evs)[e] else 0
    decreases |evs|
  {
    if |evs| == 0 then []
    else
      var rest := Week(evs[1..], maxDay);
      assert evs == [evs[0]] + evs[1..];
      if InWeek(evs[0], maxDay) then [evs[0]] + rest else rest
  }

  /** The impressions the dataset is built from: the week ending on the
      latest impression day; none when there are no impressions. */
  function TargetWeek(prints: seq<Event>): (w: seq<Event>)
    ensures |w| == 0 <==> |prints| == 0
    ensures |prints| > 0 ==> forall e :: multiset(w)[e] == if InWeek(e, MaxDay(prints)) then multiset(prints)[e] else 0
  {
    if |prints| == 0 then []
    else
      var w := Week(prints, MaxDay(prints));
      var i :| 0 <= i < |prints| && prints[i].day == MaxDay(prints);
      assert prints[i] in multiset(prints);
      assert prints[i] in multiset(w);
      w
  }

  // --------------------------------------------------------------- joins

  /** The output columns filled by a join. */
  datatype Column = Clicked | PrintsPrev | TapsPrev | PaymentsPrev | AmountPrev

  function Set(f: FeatureRow, c: Column, v: int): (r: FeatureRow)
    ensures Base(r) == Base(f) && FeatureKey(r) == FeatureKey(f)
  {
    match c
    case Clicked => f.(clicked := v)
    case PrintsPrev => f.(printsPrev3w := v)
    case TapsPrev => f.(tapsPrev3w := v)
    case PaymentsPrev => f.(paymentsPrev3w := v)
    case AmountPrev => f.(amountPrev3w := v)
  }

  /** The values the right table holds under join key `k`, in order. A row
      with a null offer has no join key and matches nothing. */
  function Matches(right: seq<MetricRow>, k: Option<Key>): (vs: seq<int>)
    ensures k.None? ==> vs == []
    ensures |vs| == 0 <==> k.None? || !HasKey(right, k.value)
    decreases |right|
  {
    if |right| == 0 then []
    else
      var rest := Matches(right[1..], k);
      HasKeyCons(right[0], right[1..]);
      assert right == [right[0]] + right[1..];
      if Some(right[0].key) == k then [right[0].value] + rest else rest
  }

  /** The output rows of one left row: one per match, or the row itself with
      the column filled with 0 when nothing matches. */
  function JoinRow(f: FeatureRow, right: seq<MetricRow>, c: Column): (r: seq<FeatureRow>)
    ensures |r| >= 1
    ensures forall j :: 0 <= j < |r| ==> Base(r[j]) == Base(f)
  {
    var vs := Matches(right, FeatureKey(f));
    if |vs| == 0 then [Set(f, c, 0)]
    else seq(|vs|, j requires 0 <= j < |vs| => Set(f, c, vs[j]))
  }

  /** A left join on (day, user_id, value_prop) followed by fillna(0). */
  function LeftJoin(left: seq<FeatureRow>, right: seq<MetricRow>, c: Column): (r: seq<FeatureRow>)
    ensures |r| >= |left|
    decreases |left|
  {
    if |left| == 0 then [] else JoinRow(left[0], right, c) + LeftJoin(left[1..], right, c)
  }

  /** A column set to the same value on every row. */
  function FillColumn(left: seq<FeatureRow>, c: Column, v: int): (r: seq<FeatureRow>)
    ensures |r| == |left|
  {
    seq(|left|, i requires 0 <= i < |left| => Set(left[i], c, v))
  }

  /** A feature column: joined from the table when it has rows; otherwise
      the column is created with 0 and no join takes place. */
  function JoinColumn(left: seq<FeatureRow>, right: seq<MetricRow>, c: Column): (r: seq<FeatureRow>) {
    if |right| > 0 then LeftJoin(left, right, c) else FillColumn(left, c, 0)
  }

  /** The value a left join with 0-fill reads for a key from a table whose
      keys are unique. */
  function Lookup(right: seq<MetricRow>, k: Option<Key>): int {
    if k.Some? then MetricAt(right, k.value) else 0
  }

  /** With unique keys on the right, the matches of a key are its one
      value, or nothing. */
  lemma {:induction false} MatchesUnique(right: seq<MetricRow>, k: Key)
    requires UniqueKeys(right)
    requires HasKey(right, k)
    ensures Matches(right, Some(k)) == [MetricAt(right, k)]
    decreases |right|
  {
    UniqueKeysTail(right);
    HasKeyCons(right[0], right[1..]);
    assert right == [right[0]] + right[1..];
    if right[0].key != k {
      MatchesUnique(right[1..], k);
    }
  }

  lemma JoinRowUnique(f: FeatureRow, right: seq<MetricRow>, c: Column)
    requires UniqueKeys(right)
    ensures JoinRow(f, right, c) == [Set(f, c, Lookup(right, FeatureKey(f)))]
  {
    var k := FeatureKey(f);
    if k.Some? {
      if HasKey(right, k.value) {
        MatchesUnique(right, k.value);
      } else {
        MetricAtAbsent(right, k.value);
      }
    }
  }

  /** With unique keys on the right, a left join neither adds nor drops a
      row: it keeps the left rows in order and fills the column from the
      lookup, 0 where nothing matches. */
  lemma {:induction false} LeftJoinUnique(left: seq<FeatureRow>, right: seq<MetricRow>, c: Column)
    requires UniqueKeys(right)
    ensures LeftJoin(left, right, c) ==
      seq(|left|, i requires 0 <= i < |left| => Set(left[i], c, Lookup(right, FeatureKey(left[i]))))
    decreases |left|
  {
    if |left| > 0 {
      JoinRowUnique(left[0], right, c);
      LeftJoinUnique(left[1..], right, c);
      FilledStep(left, right, c);
    }
  }

  lemma FilledStep(left: seq<FeatureRow>, right: seq<MetricRow>, c: Column)
    requires |left| > 0
    ensures seq(|left|, i requires 0 <= i < |left| => Set(left[i], c, Lookup(right, FeatureKey(left[i])))) ==
      [Set(left[0], c, Lookup(right, FeatureKey(left[0])))] +
      seq(|left| - 1, i requires 0 <= i < |left| - 1 => Set(left[1..][i], c, Lookup(right, FeatureKey(left[1..][i]))))
  {
    var rest := left[1..];
    var tail := seq(|rest|, i requires 0 <= i < |rest| => Set(rest[i], c, Lookup(right, FeatureKey(rest[i]))));
    var whole := seq(|left|, i requires 0 <= i < |left| => Set(left[i], c, Lookup(right, FeatureKey(left[i]))));
    forall i | 1 <= i < |left| ensures whole[i] == tail[i - 1] {
      assert rest[i - 1] == left[i];
    }
  }

  /** A feature column over a table with unique keys is the lookup of each
      row's key, 0 where the key is absent or the table is empty. */
  lemma JoinColumnUnique(left: seq<FeatureRow>, right: seq<MetricRow>, c: Column)
    requires UniqueKeys(right)
    ensures JoinColumn(left, right, c) ==
      seq(|left|, i requires 0 <= i < |left| => Set(left[i], c, Lookup(right, FeatureKey(left[i]))))
  {
    if |right| > 0 {
      LeftJoinUnique(left, right, c);
    }
  }

  // ------------------------------------------------------------ features

  /** The label table: 1 for every daily tap row with a positive count. */
  function ClickedTable(tapsDaily: seq<MetricRow>): (r: seq<MetricRow>)
    ensures |r| == |tapsDaily|
  {
    seq(|tapsDaily|, i requires 0 <= i < |tapsDaily| =>
      MetricRow(tapsDaily[i].key, if tapsDaily[i].value > 0 then 1 else 0))
  }

  /** The label of a key is 1 exactly when the daily tap table holds a
      positive count for it. */
  lemma ClickedLookup(tapsDaily: seq<MetricRow>, k: Key)
    requires UniqueKeys(tapsDaily)
    ensures UniqueKeys(ClickedTable(tapsDaily))
    ensures MetricAt(ClickedTable(tapsDaily), k) == if MetricAt(tapsDaily, k) > 0 then 1 else 0
  {
    var t := ClickedTable(tapsDaily);
    if HasKey(tapsDaily, k) {
      var i :| 0 <= i < |tapsDaily| && tapsDaily[i].key == k;
      MetricAtUnique(tapsDaily, i);
      MetricAtUnique(t, i);
    } else {
      MetricAtAbsent(tapsDaily, k);
      MetricAtAbsent(t, k);
    }
  }

  /** Base rows, then the label, then the four trailing features, in the
      order the joins run. A column the base row does not have yet reads 0
      in it until its join or fill sets it. */
  function Joined(week: seq<Event>, tapsDaily: seq<MetricRow>,
                  rp: seq<MetricRow>, rt: seq<MetricRow>, rpay: seq<MetricRow>, ramt: seq<MetricRow>): seq<FeatureRow>
  {
    var base := seq(|week|, i requires 0 <= i < |week| => BaseRow(week[i]));
    var labelled := JoinColumn(base, ClickedTable(tapsDaily), Clicked);
    var f1 := JoinColumn(labelled, rp, PrintsPrev);
    var f2 := JoinColumn(f1, rt, TapsPrev);
    var f3 := JoinColumn(f2, rpay, PaymentsPrev);
    JoinColumn(f3, ramt, AmountPrev)
  }

  /** The row a single impression gets from lookups in the five tables. */
  function LookupRow(e: Event, clicks: seq<MetricRow>,
                     rp: seq<MetricRow>, rt: seq<MetricRow>, rpay: seq<MetricRow>, ramt: seq<MetricRow>): FeatureRow
  {
    var k := EventKey(e);
    FeatureRow(e.day, e.user, e.valueProp, e.position,
      Lookup(clicks, k), Lookup(rp, k), Lookup(rt, k), Lookup(rpay, k), Lookup(ramt, k))
  }

  /** With unique keys in every table, the joins keep one row per
      impression, in order, each carrying its five lookups. */
  lemma {:induction false} JoinedRows(week: seq<Event>, tapsDaily: seq<MetricRow>,
                   rp: seq<MetricRow>, rt: seq<MetricRow>, rpay: seq<MetricRow>, ramt: seq<MetricRow>)
    requires UniqueKeys(tapsDaily) && UniqueKeys(rp) && UniqueKeys(rt) && UniqueKeys(rpay) && UniqueKeys(ramt)
    ensures Joined(week, tapsDaily, rp, rt, rpay, ramt) ==
      seq(|week|, i requires 0 <= i < |week| => LookupRow(week[i], ClickedTable(tapsDaily), rp, rt, rpay, ramt))
  {
    var clicks := ClickedTable(tapsDaily);
    ClickedUnique(tapsDaily);
    var base := seq(|week|, i requires 0 <= i < |week| => BaseRow(week[i]));
    var labelled := JoinColumn(base, clicks, Clicked);
    JoinColumnUnique(base, clicks, Clicked);
    var f1 := JoinColumn(labelled, rp, PrintsPrev);
    JoinColumnUnique(labelled, rp, PrintsPrev);
    var f2 := JoinColumn(f1, rt, TapsPrev);
    JoinColumnUnique(f1, rt, TapsPrev);
    var f3 := JoinColumn(f2, rpay, PaymentsPrev);
    JoinColumnUnique(f2, rpay, PaymentsPrev);
    var f4 := JoinColumn(f3, ramt, AmountPrev);
    JoinColumnUnique(f3, ramt, AmountPrev);
    forall i | 0 <= i < |week|
      ensures f4[i] == LookupRow(week[i], clicks, rp, rt, rpay, ramt)
    {
      var k := EventKey(week[i]);
      assert base[i] == BaseRow(week[i]) && FeatureKey(base[i]) == k;
      assert labelled[i] == Set(base[i], Clicked, Lookup(clicks, k));
      assert f1[i] == Set(labelled[i], PrintsPrev, Lookup(rp, k));
      assert f2[i] == Set(f1[i], TapsPrev, Lookup(rt, k));
      assert f3[i] == Set(f2[i], PaymentsPrev, Lookup(rpay, k));
      assert f4[i] == Set(f3[i], AmountPrev, Lookup(ramt, k));
    }
  }

  /** Only the key uniqueness of `ClickedLookup`, without its per-key
      values: a caller that needs no more keeps its proof context small. */
  lemma ClickedUnique(tapsDaily: seq<MetricRow>)
    requires UniqueKeys(tapsDaily)
    ensures UniqueKeys(ClickedTable(tapsDaily))
  {
    var t := ClickedTable(tapsDaily);
    assert forall i :: 0 <= i < |t| ==> t[i].key == tapsDaily[i].key;
  }

  // ------------------------------------------------------------ assembly

  /** Features of the target-week impressions, sorted. With `extend` false
      this is the computation as written: each trailing-window table ends at
      the last active day of each group. With `extend` true every timeline
      runs on to the latest impression day (the corrected variant). */
  function AssembleWith(prints: seq<Event>, taps: seq<Event>, pays: seq<Payment>, extend: bool): (r: seq<FeatureRow>)
    ensures Sorted(r)
    ensures |r| == |TargetWeek(prints)|
  {
    if |prints| == 0 then []
    else
      var maxDay := MaxDay(prints);
      var week := Week(prints, maxDay);
      if |week| == 0 then []
      else
        var through := if extend then Some(maxDay) else None;
        var printsDaily := DailyCounts(prints);
        var tapsDaily := DailyCounts(taps);
        var paysDaily := PaymentDaily(pays);
        PaymentColumns(pays);
        // The daily tables have unique keys, so no window computation fails.
        var rp := Window(printsDaily, through).value;
        var rt := Window(tapsDaily, through).value;
        var rpay := Window(PaymentsColumn(paysDaily), through).value;
        var ramt := Window(AmountColumn(paysDaily), through).value;
        WindowRows(printsDaily, through);
        WindowRows(tapsDaily, through);
        WindowRows(PaymentsColumn(paysDaily), through);
        WindowRows(AmountColumn(paysDaily), through);
        JoinedRows(week, tapsDaily, rp, rt, rpay, ramt);
        SortRows(Joined(week, tapsDaily, rp, rt, rpay, ramt))
  }

  /** `construir_dataset` from the week cut to the sort, as written. */
  function Assemble(prints: seq<Event>, taps: seq<Event>, pays: seq<Payment>): (r: seq<FeatureRow>)
    ensures Sorted(r) && |r| == |TargetWeek(prints)|
  {
    AssembleWith(prints, taps, pays, false)
  }

  /** The same with the trailing windows extended to the latest impression day. */
  function AssembleIntended(prints: seq<Event>, taps: seq<Event>, pays: seq<Payment>): (r: seq<FeatureRow>)
    ensures Sorted(r) && |r| == |TargetWeek(prints)|
  {
    AssembleWith(prints, taps, pays, true)
  }

  // ----------------------------------------------------------- reference

  /** Events of the event's (user, offer) on the 21 days before its day. */
  function PriorCount(evs: seq<Event>, e: Event): int {
    match EventKey(e)
    case None => 0
    case Some(k) => CountBetween(evs, k.group, k.day - WindowDays, k.day)
  }

  /** Payments of the impression's (user, offer) on the 21 days before its day. */
  function PriorPayments(pays: seq<Payment>, e: Event): int {
    match EventKey(e)
    case None => 0
    case Some(k) => PaymentsBetween(pays, k.group, k.day - WindowDays, k.day)
  }

  /** Their summed amount. */
  function PriorAmount(pays: seq<Payment>, e: Event): int {
    match EventKey(e)
    case None => 0
    case Some(k) => AmountBetween(pays, k.group, k.day - WindowDays, k.day)
  }

  /** A tap with the impression's day, user and offer exists. */
  predicate TappedSameDay(taps: seq<Event>, e: Event) {
    EventKey(e).Some? && EventsHaveKey(taps, EventKey(e).value)
  }

  /** The row an impression should get: its label and, for each metric,
      the total over the 21 days before its day. */
  function IntendedRow(prints: seq<Event>, taps: seq<Event>, pays: seq<Payment>, e: Event): FeatureRow {
    FeatureRow(e.day, e.user, e.valueProp, e.position,
      if TappedSameDay(taps, e) then 1 else 0,
      PriorCount(prints, e), PriorCount(taps, e), PriorPayments(pays, e), PriorAmount(pays, e))
  }

  /** Some event of group `g` falls on day `d` or later. */
  predicate ActiveFrom(evs: seq<Event>, g: Group, d: Day) {
    exists i :: 0 <= i < |evs| && EventKey(evs[i]).Some? && EventKey(evs[i]).value.group == g && EventKey(evs[i]).value.day >= d
  }

  /** Some payment of group `g` falls on day `d` or later. */
  predicate PaidFrom(pays: seq<Payment>, g: Group, d: Day) {
    exists i :: 0 <= i < |pays| && PaymentKey(pays[i]).Some? && PaymentKey(pays[i]).value.group == g && PaymentKey(pays[i]).value.day >= d
  }

  /** Some event of the impression's (user, offer) falls on or after its day. */
  predicate EventOnOrAfter(evs: seq<Event>, e: Event) {
    EventKey(e).Some? && ActiveFrom(evs, EventKey(e).value.group, e.day)
  }

  /** Some payment of the impression's (user, offer) falls on or after its day. */
  predicate PaymentOnOrAfter(pays: seq<Payment>, e: Event) {
    EventKey(e).Some? && PaidFrom(pays, EventKey(e).value.group, e.day)
  }

  /** The row an impression gets as written: the tap and payment features
      are 0 unless the (user, offer) has a tap, respectively a payment, on
      or after the impression's day. */
  function AsWrittenRow(prints: seq<Event>, taps: seq<Event>, pays: seq<Payment>, e: Event): FeatureRow {
    var f := IntendedRow(prints, taps, pays, e);
    f.(tapsPrev3w := if EventOnOrAfter(taps, e) then f.tapsPrev3w else 0,
       paymentsPrev3w := if PaymentOnOrAfter(pays, e) then f.paymentsPrev3w else 0,
       amountPrev3w := if PaymentOnOrAfter(pays, e) then f.amountPrev3w else 0)
  }

  // ------------------------------------------------------ column lemmas

  /** The label read for a key is 1 exactly when some tap carries it. */
  lemma ClickedFeature(taps: seq<Event>, k: Key)
    ensures UniqueKeys(ClickedTable(DailyCounts(taps)))
    ensures MetricAt(ClickedTable(DailyCounts(taps)), k) == if EventsHaveKey(taps, k) then 1 else 0
  {
    var daily := DailyCounts(taps);
    ClickedLookup(daily, k);
    if HasKey(daily, k) {
      var i :| 0 <= i < |daily| && daily[i].key == k;
      MetricAtUnique(daily, i);
    } else {
      MetricAtAbsent(daily, k);
    }
  }

  /** Extended to day `t`, the window over daily event counts gives every
      key up to `t` the number of its group's events in the 21 days before. */
  lemma {:induction false} EventFeatureExtended(evs: seq<Event>, t: Day, k: Key)
    requires k.day <= t
    ensures Window(DailyCounts(evs), Some(t)).Ok?
    ensures MetricAt(Window(DailyCounts(evs), Some(t)).value, k) == CountBetween(evs, k.group, k.day - WindowDays, k.day)
  {
    var daily := DailyCounts(evs);
    var v := CountBetween(evs, k.group, k.day - WindowDays, k.day);
    DailyCountsBetween(evs, k.group, k.day - WindowDays, k.day);
    ExtendedValue(daily, t, k, v);
  }

  /** The same for the number of payments. */
  lemma {:induction false} PaymentCountExtended(pays: seq<Payment>, t: Day, k: Key)
    requires k.day <= t
    ensures UniqueKeys(PaymentsColumn(PaymentDaily(pays)))
    ensures MetricAt(Window(PaymentsColumn(PaymentDaily(pays)), Some(t)).value, k) ==
      PaymentsBetween(pays, k.group, k.day - WindowDays, k.day)
  {
    var daily := PaymentDaily(pays);
    var pc := PaymentsColumn(daily);
    assert UniqueKeys(pc);
    var v := PaymentsBetween(pays, k.group, k.day - WindowDays, k.day);
    PaymentsColumnBetween(pays, k.group, k.day - WindowDays, k.day);
    assert DaySum(pc, k.group, k.day - WindowDays, k.day) == v;
    ExtendedValue(pc, t, k, v);
  }

  /** And for the amount paid. */
  lemma {:induction false} PaymentAmountExtended(pays: seq<Payment>, t: Day, k: Key)
    requires k.day <= t
    ensures UniqueKeys(AmountColumn(PaymentDaily(pays)))
    ensures MetricAt(Window(AmountColumn(PaymentDaily(pays)), Some(t)).value, k) ==
      AmountBetween(pays, k.group, k.day - WindowDays, k.day)
  {
    var daily := PaymentDaily(pays);
    var ac := AmountColumn(daily);
    assert UniqueKeys(ac);
    var v := AmountBetween(pays, k.group, k.day - WindowDays, k.day);
    AmountColumnBetween(pays, k.group, k.day - WindowDays, k.day);
    assert DaySum(ac, k.group, k.day - WindowDays, k.day) == v;
    ExtendedValue(ac, t, k, v);
  }

  /** As written, the window over daily event counts gives a key the count
      of the 21 days before it only when the group has an event on or after
      that day; otherwise 0. */
  lemma {:induction false} EventFeatureAsWritten(evs: seq<Event>, k: Key)
    ensures Window(DailyCounts(evs), None).Ok?
    ensures MetricAt(Window(DailyCounts(evs), None).value, k) ==
      if ActiveFrom(evs, k.group, k.day)
      then CountBetween(evs, k.group, k.day - WindowDays, k.day) else 0
  {
    var daily := DailyCounts(evs);
    DailyCountsBetween(evs, k.group, k.day - WindowDays, k.day);
    AsComputedValue(daily, k, CountBetween(evs, k.group, k.day - WindowDays, k.day));
    LaterEventIffLaterRow(evs, daily, k.group, k.day);
  }

  lemma LaterEventIffLaterRow(evs: seq<Event>, daily: seq<MetricRow>, g: Group, d: Day)
    requires forall k :: HasKey(daily, k) <==> EventsHaveKey(evs, k)
    ensures (exists j :: 0 <= j < |daily| && daily[j].key.group == g && daily[j].key.day >= d) <==>
      ActiveFrom(evs, g, d)
  {
    if exists j :: 0 <= j < |daily| && daily[j].key.group == g && daily[j].key.day >= d {
      var j :| 0 <= j < |daily| && daily[j].key.group == g && daily[j].key.day >= d;
      assert HasKey(daily, daily[j].key);
      var i :| 0 <= i < |evs| && EventKey(evs[i]) == Some(daily[j].key);
    }
    if ActiveFrom(evs, g, d) {
      var i :| 0 <= i < |evs| && EventKey(evs[i]).Some? && EventKey(evs[i]).value.group == g && EventKey(evs[i]).value.day >= d;
      assert EventsHaveKey(evs, EventKey(evs[i]).value);
      var j :| 0 <= j < |daily| && daily[j].key == EventKey(evs[i]).value;
    }
  }

  lemma LaterPaymentIffLaterRow(pays: seq<Payment>, daily: seq<MetricRow>, g: Group, d: Day)
    requires forall k :: HasKey(daily, k) <==> PaymentsHaveKey(pays, k)
    ensures (exists j :: 0 <= j < |daily| && daily[j].key.group == g && daily[j].key.day >= d) <==>
      PaidFrom(pays, g, d)
  {
    if exists j :: 0 <= j < |daily| && daily[j].key.group == g && daily[j].key.day >= d {
      var j :| 0 <= j < |daily| && daily[j].key.group == g && daily[j].key.day >= d;
      assert HasKey(daily, daily[j].key);
      var i :| 0 <= i < |pays| && PaymentKey(pays[i]) == Some(daily[j].key);
    }
    if PaidFrom(pays, g, d) {
      var i :| 0 <= i < |pays| && PaymentKey(pays[i]).Some? && PaymentKey(pays[i]).value.group == g && PaymentKey(pays[i]).value.day >= d;
      assert PaymentsHaveKey(pays, PaymentKey(pays[i]).value);
      var j :| 0 <= j < |daily| && daily[j].key == PaymentKey(pays[i]).value;
    }
  }

  /** A payment column whose keys are those of the payments and whose
      day-range sum before `k` is `v` reads, as written, `v` for `k` when the
      group has a payment on or after `k`'s day, and 0 otherwise. */
  lemma {:induction false} PaymentColumnAsWritten(pays: seq<Payment>, col: seq<MetricRow>, k: Key, v: int)
    requires UniqueKeys(col)
    requires forall k :: HasKey(col, k) <==> PaymentsHaveKey(pays, k)
    requires DaySum(col, k.group, k.day - WindowDays, k.day) == v
    ensures Window(col, None).Ok?
    ensures MetricAt(Window(col, None).value, k) == if PaidFrom(pays, k.group, k.day) then v else 0
  {
    AsComputedValue(col, k, v);
    LaterPaymentIffLaterRow(pays, col, k.group, k.day);
  }

  /** As written, the number of payments read for a key is the total of
      the 21 days before it only when the group has a payment on or after
      that day; otherwise 0. */
  lemma {:induction false} PaymentCountAsWritten(pays: seq<Payment>, k: Key)
    ensures UniqueKeys(PaymentsColumn(PaymentDaily(pays)))
    ensures MetricAt(Window(PaymentsColumn(PaymentDaily(pays)), None).value, k) ==
      if PaidFrom(pays, k.group, k.day)
      then PaymentsBetween(pays, k.group, k.day - WindowDays, k.day) else 0
  {
    var pc := PaymentsColumn(PaymentDaily(pays));
    var v := PaymentsBetween(pays, k.group, k.day - WindowDays, k.day);
    PaymentsColumnKeys(pays);
    PaymentsColumnBetween(pays, k.group, k.day - WindowDays, k.day);
    PaymentColumnAsWritten(pays, pc, k, v);
  }

  /** The same for the amount paid. */
  lemma {:induction false} PaymentAmountAsWritten(pays: seq<Payment>, k: Key)
    ensures UniqueKeys(AmountColumn(PaymentDaily(pays)))
    ensures MetricAt(Window(AmountColumn(PaymentDaily(pays)), None).value, k) ==
      if PaidFrom(pays, k.group, k.day)
      then AmountBetween(pays, k.group, k.day - WindowDays, k.day) else 0
  {
    var ac := AmountColumn(PaymentDaily(pays));
    var v := AmountBetween(pays, k.group, k.day - WindowDays, k.day);
    AmountColumnKeys(pays);
    AmountColumnBetween(pays, k.group, k.day - WindowDays, k.day);
    PaymentColumnAsWritten(pays, ac, k, v);
  }

  // ----------------------------------------------------------- theorems

  /** Every impression of the target week is an impression of the week
      ending on the latest impression day. */
  lemma WeekMembers(prints: seq<Event>)
    requires |prints| > 0
    ensures forall i :: 0 <= i < |TargetWeek(prints)| ==>
      TargetWeek(prints)[i] in prints && InWeek(TargetWeek(prints)[i], MaxDay(prints))
  {
    var w := TargetWeek(prints);
    forall i | 0 <= i < |w| ensures w[i] in prints && InWeek(w[i], MaxDay(prints)) {
      assert w[i] in multiset(w);
    }
  }

  /** One impression of the target week. */
  lemma WeekMember(prints: seq<Event>, i: int)
    requires 0 <= i < |TargetWeek(prints)|
    ensures |prints| > 0
    ensures TargetWeek(prints)[i] in prints && InWeek(TargetWeek(prints)[i], MaxDay(prints))
  {
    assert TargetWeek(prints)[i] in multiset(TargetWeek(prints));
  }

  function IntendedRows(prints: seq<Event>, taps: seq<Event>, pays: seq<Payment>, week: seq<Event>): (r: seq<FeatureRow>)
    ensures |r| == |week|
  {
    seq(|week|, i requires 0 <= i < |week| => IntendedRow(prints, taps, pays, week[i]))
  }

  function AsWrittenRows(prints: seq<Event>, taps: seq<Event>, pays: seq<Payment>, week: seq<Event>): (r: seq<FeatureRow>)
    ensures |r| == |week|
  {
    seq(|week|, i requires 0 <= i < |week| => AsWrittenRow(prints, taps, pays, week[i]))
  }

  /** Two as-written rows with the same sort key come from the same
      impression and are therefore the same row. */
  lemma AsWrittenTies(prints: seq<Event>, taps: seq<Event>, pays: seq<Payment>, week: seq<Event>)
    ensures TiesIdentical(multiset(AsWrittenRows(prints, taps, pays, week)))
  {
    var rows := AsWrittenRows(prints, taps, pays, week);
    forall a, b | a in multiset(rows) && b in multiset(rows) && SameSortKey(a, b) ensures a == b {
      var i :| 0 <= i < |rows| && rows[i] == a;
      var j :| 0 <= j < |rows| && rows[j] == b;
      assert week[i] == week[j];
    }
  }

  /** Whatever order a sort leaves tied rows in, the result is the
      assembly: any sorted arrangement of the as-written rows equals it. */
  lemma AnySortIsAssemble(prints: seq<Event>, taps: seq<Event>, pays: seq<Payment>, s: seq<FeatureRow>)
    requires Sorted(s)
    requires multiset(s) == multiset(AsWrittenRows(prints, taps, pays, TargetWeek(prints)))
    ensures s == Assemble(prints, taps, pays)
  {
    AssembleRows(prints, taps, pays);
    AsWrittenTies(prints, taps, pays, TargetWeek(prints));
    SortedUnique(s, Assemble(prints, taps, pays));
  }

  /** Corrected rows are tied only when they are the same row, as above. */
  lemma IntendedTies(prints: seq<Event>, taps: seq<Event>, pays: seq<Payment>, week: seq<Event>)
    ensures TiesIdentical(multiset(IntendedRows(prints, taps, pays, week)))
  {
    var rows := IntendedRows(prints, taps, pays, week);
    forall a, b | a in multiset(rows) && b in multiset(rows) && SameSortKey(a, b) ensures a == b {
      var i :| 0 <= i < |rows| && rows[i] == a;
      var j :| 0 <= j < |rows| && rows[j] == b;
      assert week[i] == week[j];
    }
  }

  /** Any sorted arrangement of the corrected rows is the corrected assembly. */
  lemma AnySortIsIntended(prints: seq<Event>, taps: seq<Event>, pays: seq<Payment>, s: seq<FeatureRow>)
    requires Sorted(s)
    requires multiset(s) == multiset(IntendedRows(prints, taps, pays, TargetWeek(prints)))
    ensures s == AssembleIntended(prints, taps, pays)
  {
    AssembleIntendedRows(prints, taps, pays);
    IntendedTies(prints, taps, pays, TargetWeek(prints));
    SortedUnique(s, AssembleIntended(prints, taps, pays));
  }

  /** The reference values of an impression with key `k`. */
  lemma PriorOfKey(evs: seq<Event>, pays: seq<Payment>, e: Event, k: Key)
    requires EventKey(e) == Some(k)
    ensures PriorCount(evs, e) == CountBetween(evs, k.group, k.day - WindowDays, k.day)
    ensures PriorPayments(pays, e) == PaymentsBetween(pays, k.group, k.day - WindowDays, k.day)
    ensures PriorAmount(pays, e) == AmountBetween(pays, k.group, k.day - WindowDays, k.day)
  {
  }

  /** Per-column steps of IntendedLookup, for an impression with a key. */
  lemma ClickedKeyed(taps: seq<Event>, e: Event, k: Key)
    requires EventKey(e) == Some(k)
    ensures Lookup(ClickedTable(DailyCounts(taps)), EventKey(e)) == if TappedSameDay(taps, e) then 1 else 0
  {
    ClickedFeature(taps, k);
  }

  lemma ExtendedKeyed(evs: seq<Event>, maxDay: Day, e: Event, k: Key)
    requires EventKey(e) == Some(k) && k.day <= maxDay
    ensures Lookup(Window(DailyCounts(evs), Some(maxDay)).value, EventKey(e)) == PriorCount(evs, e)
  {
    PriorOfKey(evs, [], e, k);
    EventFeatureExtended(evs, maxDay, k);
  }

  lemma ExtendedCountKeyed(pays: seq<Payment>, maxDay: Day, e: Event, k: Key)
    requires EventKey(e) == Some(k) && k.day <= maxDay
    ensures Lookup(Window(PaymentsColumn(PaymentDaily(pays)), Some(maxDay)).value, EventKey(e)) == PriorPayments(pays, e)
  {
    PriorOfKey([], pays, e, k);
    PaymentCountExtended(pays, maxDay, k);
  }

  lemma ExtendedAmountKeyed(pays: seq<Payment>, maxDay: Day, e: Event, k: Key)
    requires EventKey(e) == Some(k) && k.day <= maxDay
    ensures Lookup(Window(AmountColumn(PaymentDaily(pays)), Some(maxDay)).value, EventKey(e)) == PriorAmount(pays, e)
  {
    PriorOfKey([], pays, e, k);
    PaymentAmountExtended(pays, maxDay, k);
  }

  /** With the windows extended to `maxDay`, the lookups of an impression
      up to that day give its intended row. */
  lemma IntendedLookup(prints: seq<Event>, taps: seq<Event>, pays: seq<Payment>, maxDay: Day, e: Event)
    requires e.day <= maxDay
    ensures LookupRow(e, ClickedTable(DailyCounts(taps)),
      Window(DailyCounts(prints), Some(maxDay)).value, Window(DailyCounts(taps), Some(maxDay)).value,
      Window(PaymentsColumn(PaymentDaily(pays)), Some(maxDay)).value,
      Window(AmountColumn(PaymentDaily(pays)), Some(maxDay)).value) == IntendedRow(prints, taps, pays, e)
  {
    match EventKey(e)
    case None =>
    case Some(k) =>
      ClickedKeyed(taps, e, k);
      ExtendedKeyed(prints, maxDay, e, k);
      ExtendedKeyed(taps, maxDay, e, k);
      ExtendedCountKeyed(pays, maxDay, e, k);
      ExtendedAmountKeyed(pays, maxDay, e, k);
  }

  lemma AsWrittenKeyed(evs: seq<Event>, e: Event, k: Key)
    requires EventKey(e) == Some(k)
    ensures Lookup(Window(DailyCounts(evs), None).value, EventKey(e)) ==
      if EventOnOrAfter(evs, e) then PriorCount(evs, e) else 0
  {
    PriorOfKey(evs, [], e, k);
    EventFeatureAsWritten(evs, k);
  }

  lemma AsWrittenCountKeyed(pays: seq<Payment>, e: Event, k: Key)
    requires EventKey(e) == Some(k)
    ensures Lookup(Window(PaymentsColumn(PaymentDaily(pays)), None).value, EventKey(e)) ==
      if PaymentOnOrAfter(pays, e) then PriorPayments(pays, e) else 0
  {
    PriorOfKey([], pays, e, k);
    PaymentCountAsWritten(pays, k);
  }

  lemma AsWrittenAmountKeyed(pays: seq<Payment>, e: Event, k: Key)
    requires EventKey(e) == Some(k)
    ensures Lookup(Window(AmountColumn(PaymentDaily(pays)), None).value, EventKey(e)) ==
      if PaymentOnOrAfter(pays, e) then PriorAmount(pays, e) else 0
  {
    PriorOfKey([], pays, e, k);
    PaymentAmountAsWritten(pays, k);
  }

  /** As written, the lookups of an impression that is itself among the
      impressions give its as-written row. */
  lemma AsWrittenLookup(prints: seq<Event>, taps: seq<Event>, pays: seq<Payment>, e: Event)
    requires e in prints
    ensures LookupRow(e, ClickedTable(DailyCounts(taps)),
      Window(DailyCounts(prints), None).value, Window(DailyCounts(taps), None).value,
      Window(PaymentsColumn(PaymentDaily(pays)), None).value,
      Window(AmountColumn(PaymentDaily(pays)), None).value) == AsWrittenRow(prints, taps, pays, e)
  {
    match EventKey(e)
    case None =>
    case Some(k) =>
      var i :| 0 <= i < |prints| && prints[i] == e;
      assert EventOnOrAfter(prints, e);
      ClickedKeyed(taps, e, k);
      AsWrittenKeyed(prints, e, k);
      AsWrittenKeyed(taps, e, k);
      AsWrittenCountKeyed(pays, e, k);
      AsWrittenAmountKeyed(pays, e, k);
  }

  /** The window table of a table with unique keys has unique keys: the
      part of `WindowRows` the whole-assembly proofs need, exposed alone so
      that its quantified facts about every row stay out of their context. */
  lemma WindowUnique(rows: seq<MetricRow>, through: Option<Day>)
    requires UniqueKeys(rows)
    ensures Window(rows, through).Ok? && UniqueKeys(Window(rows, through).value)
  {
    WindowRows(rows, through);
  }

  /** The joins produce `expected` when each impression's lookups give the
      row `expected` holds for it. */
  lemma JoinedAs(week: seq<Event>, tapsDaily: seq<MetricRow>,
                 rp: seq<MetricRow>, rt: seq<MetricRow>, rpay: seq<MetricRow>, ramt: seq<MetricRow>,
                 expected: seq<FeatureRow>)
    requires UniqueKeys(tapsDaily) && UniqueKeys(rp) && UniqueKeys(rt) && UniqueKeys(rpay) && UniqueKeys(ramt)
    requires |expected| == |week|
    requires forall i :: 0 <= i < |week| ==> LookupRow(week[i], ClickedTable(tapsDaily), rp, rt, rpay, ramt) == expected[i]
    ensures Joined(week, tapsDaily, rp, rt, rpay, ramt) == expected
  {
    JoinedRows(week, tapsDaily, rp, rt, rpay, ramt);
  }

  /** The corrected assembly is the sorted sequence of the intended rows of
      the target-week impressions: one row per impression, its label 1
      exactly when a same-day tap of its (user, offer) exists, and every
      feature the total of the 21 days before its day. */
  lemma AssembleIntendedRows(prints: seq<Event>, taps: seq<Event>, pays: seq<Payment>)
    ensures AssembleIntended(prints, taps, pays) == SortRows(IntendedRows(prints, taps, pays, TargetWeek(prints)))
    ensures multiset(AssembleIntended(prints, taps, pays)) == multiset(IntendedRows(prints, taps, pays, TargetWeek(prints)))
  {
    if |prints| > 0 {
      var maxDay := MaxDay(prints);
      var week := TargetWeek(prints);
      var tapsDaily := DailyCounts(taps);
      var paysDaily := PaymentDaily(pays);
      PaymentColumns(pays);
      var rp := Window(DailyCounts(prints), Some(maxDay)).value;
      var rt := Window(tapsDaily, Some(maxDay)).value;
      var rpay := Window(PaymentsColumn(paysDaily), Some(maxDay)).value;
      var ramt := Window(AmountColumn(paysDaily), Some(maxDay)).value;
      WindowUnique(DailyCounts(prints), Some(maxDay));
      WindowUnique(tapsDaily, Some(maxDay));
      WindowUnique(PaymentsColumn(paysDaily), Some(maxDay));
      WindowUnique(AmountColumn(paysDaily), Some(maxDay));
      var expected := IntendedRows(prints, taps, pays, week);
      forall i | 0 <= i < |week|
        ensures LookupRow(week[i], ClickedTable(tapsDaily), rp, rt, rpay, ramt) == expected[i]
      {
        WeekMember(prints, i);
        IntendedLookup(prints, taps, pays, maxDay, week[i]);
      }
      JoinedAs(week, tapsDaily, rp, rt, rpay, ramt, expected);
    }
  }

  /** The assembly as written is the sorted sequence of the as-written rows. */
  lemma AssembleRows(prints: seq<Event>, taps: seq<Event>, pays: seq<Payment>)
    ensures Assemble(prints, taps, pays) == SortRows(AsWrittenRows(prints, taps, pays, TargetWeek(prints)))
    ensures multiset(Assemble(prints, taps, pays)) == multiset(AsWrittenRows(prints, taps, pays, TargetWeek(prints)))
  {
    if |prints| > 0 {
      var week := TargetWeek(prints);
      var tapsDaily := DailyCounts(taps);
      var paysDaily := PaymentDaily(pays);
      PaymentColumns(pays);
      var rp := Window(DailyCounts(prints), None).value;
      var rt := Window(tapsDaily, None).value;
      var rpay := Window(PaymentsColumn(paysDaily), None).value;
      var ramt := Window(AmountColumn(paysDaily), None).value;
      WindowUnique(DailyCounts(prints), None);
      WindowUnique(tapsDaily, None);
      WindowUnique(PaymentsColumn(paysDaily), None);
      WindowUnique(AmountColumn(paysDaily), None);
      var expected := AsWrittenRows(prints, taps, pays, week);
      forall i | 0 <= i < |week|
        ensures LookupRow(week[i], ClickedTable(tapsDaily), rp, rt, rpay, ramt) == expected[i]
      {
        WeekMember(prints, i);
        AsWrittenLookup(prints, taps, pays, week[i]);
      }
      JoinedAs(week, tapsDaily, rp, rt, rpay, ramt, expected);
    }
  }

  // ------------------------------------------------------------ finding

  /** An impression on day 15 of a (user, offer) whose one tap was on day
      10. As written, the taps timeline of that group ends on day 10, so the
      impression's key has no row in the taps window table and the join
      fills 0, although the tap lies in the 21 days before the impression.
      The corrected assembly reports the tap. */
  lemma WindowEndCounterexample()
    ensures var prints := [Event(15, "u", Some("v"), Some(1))];
      var taps := [Event(10, "u", Some("v"), None)];
      PriorCount(taps, prints[0]) == 1 &&
      |Assemble(prints, taps, [])| == 1 && Assemble(prints, taps, [])[0].tapsPrev3w == 0 &&
      |AssembleIntended(prints, taps, [])| == 1 && AssembleIntended(prints, taps, [])[0].tapsPrev3w == 1
  {
    var e := Event(15, "u", Some("v"), Some(1));
    var taps := [Event(10, "u", Some("v"), None)];
    EarlierTap(e, taps);
    SingleAsWritten(e, taps, []);
    SingleIntended(e, taps, []);
  }

  /** The same gap lets taps on or after the impression's day into the
      feature. Adding one tap on the impression's own day 15, and nothing
      earlier, turns the as-written `taps_prev_3w` from 0 to 1, in step with
      the same-day label, although the 21 days before the impression are
      unchanged. The corrected assembly reads 1 in both cases. */
  lemma LeakCounterexample()
    ensures var prints := [Event(15, "u", Some("v"), Some(1))];
      var early := [Event(10, "u", Some("v"), None)];
      var later := early + [Event(15, "u", Some("v"), None)];
      |Assemble(prints, early, [])| == 1 && |Assemble(prints, later, [])| == 1 &&
      Assemble(prints, early, [])[0].tapsPrev3w == 0 && Assemble(prints, early, [])[0].clicked == 0 &&
      Assemble(prints, later, [])[0].tapsPrev3w == 1 && Assemble(prints, later, [])[0].clicked == 1 &&
      |AssembleIntended(prints, early, [])| == 1 && |AssembleIntended(prints, later, [])| == 1 &&
      AssembleIntended(prints, early, [])[0].tapsPrev3w == 1 && AssembleIntended(prints, later, [])[0].tapsPrev3w == 1
  {
    var e := Event(15, "u", Some("v"), Some(1));
    var early := [Event(10, "u", Some("v"), None)];
    var later := early + [Event(15, "u", Some("v"), None)];
    EarlierTap(e, early);
    NoSameDayTap(e, early);
    SameDayTap(e, later);
    SingleAsWritten(e, early, []);
    SingleAsWritten(e, later, []);
    SingleIntended(e, early, []);
    SingleIntended(e, later, []);
  }

  /** With a single impression, the assembly as written is its as-written row. */
  lemma {:induction false} SingleAsWritten(e: Event, taps: seq<Event>, pays: seq<Payment>)
    ensures Assemble([e], taps, pays) == [AsWrittenRow([e], taps, pays, e)]
  {
    SingleWeek(e);
    AssembleRows([e], taps, pays);
    assert AsWrittenRows([e], taps, pays, [e]) == [AsWrittenRow([e], taps, pays, e)];
  }

  /** With a single impression, the corrected assembly is its intended row. */
  lemma {:induction false} SingleIntended(e: Event, taps: seq<Event>, pays: seq<Payment>)
    ensures AssembleIntended([e], taps, pays) == [IntendedRow([e], taps, pays, e)]
  {
    SingleWeek(e);
    AssembleIntendedRows([e], taps, pays);
    assert IntendedRows([e], taps, pays, [e]) == [IntendedRow([e], taps, pays, e)];
  }

  lemma SingleWeek(e: Event)
    ensures TargetWeek([e]) == [e]
  {
    assert MaxDay([e]) == e.day;
    assert multiset(TargetWeek([e]))[e] == 1;
    assert |TargetWeek([e])| == 1;
  }

  lemma EarlierTap(e: Event, taps: seq<Event>)
    requires e == Event(15, "u", Some("v"), Some(1))
    requires taps == [Event(10, "u", Some("v"), None)]
    ensures PriorCount(taps, e) == 1 && !EventOnOrAfter(taps, e)
  {
    var k := Key(Group("u", "v"), 15);
    assert EventKey(e) == Some(k);
    assert taps[..0] == [];
    assert EventKey(taps[0]) == Some(Key(Group("u", "v"), 10));
    assert CountBetween(taps[..0], k.group, 15 - WindowDays, 15) == 0;
  }

  lemma NoSameDayTap(e: Event, taps: seq<Event>)
    requires e == Event(15, "u", Some("v"), Some(1))
    requires taps == [Event(10, "u", Some("v"), None)]
    ensures !TappedSameDay(taps, e)
  {
    assert EventKey(taps[0]) == Some(Key(Group("u", "v"), 10));
  }

  lemma SameDayTap(e: Event, taps: seq<Event>)
    requires e == Event(15, "u", Some("v"), Some(1))
    requires taps == [Event(10, "u", Some("v"), None), Event(15, "u", Some("v"), None)]
    ensures PriorCount(taps, e) == 1 && EventOnOrAfter(taps, e) && TappedSameDay(taps, e)
  {
    var k := Key(Group("u", "v"), 15);
    assert EventKey(e) == Some(k);
    assert EventKey(taps[1]) == Some(k);
    var first := taps[..1];
    assert first == [Event(10, "u", Some("v"), None)];
    EarlierTap(e, first);
    assert CountBetween(taps, k.group, 15 - WindowDays, 15) == CountBetween(first, k.group, 15 - WindowDays, 15);
  }
}
