/** What the dataset does not depend on. The order of the input rows is
    irrelevant: every reference quantity is a sum or an existence over the
    rows, so permuting them changes nothing, and the final sort puts the
    rows in one order whatever order they arrived in. The corrected variant
    also ignores every tap on or after an impression's day when it computes
    that impression's tap history. */
module Invariance {
  import opened Records
  import opened Aggregation
  import opened TrailingWindow
  import opened Ordering
  import opened Assembly

  // ------------------------------------------------------- sums over rows

  /** The sum of `f` over the elements of `s`, folded from the front. */
  function SumOf<T>(s: seq<T>, f: T -> int): int
    decreases |s|
  {
    if |s| == 0 then 0 else SumOf(s[..|s| - 1], f) + f(s[|s| - 1])
  }

  lemma {:induction false} SumOfAppend<T>(a: seq<T>, b: seq<T>, f: T -> int)
    ensures SumOf(a + b, f) == SumOf(a, f) + SumOf(b, f)
    decreases |b|
  {
    if |b| == 0 {
      assert a + b == a;
    } else {
      var n := |b| - 1;
      assert (a + b)[..|a + b| - 1] == a + b[..n];
      assert (a + b)[|a + b| - 1] == b[n];
      SumOfAppend(a, b[..n], f);
    }
  }

  lemma SumOfSingle<T>(x: T, f: T -> int)
    ensures SumOf([x], f) == f(x)
  {
    assert [x][..0] == [];
  }

  lemma MultisetCancel<T>(m: multiset<T>, m': multiset<T>, x: T)
    requires m + multiset{x} == m' + multiset{x}
    ensures m == m'
  {
    forall y
      ensures m[y] == m'[y]
    {
      assert (m + multiset{x})[y] == (m' + multiset{x})[y];
    }
  }

  /** A sum over the rows does not depend on their order. */
  lemma {:induction false} SumOfPermutation<T>(a: seq<T>, b: seq<T>, f: T -> int)
    requires multiset(a) == multiset(b)
    ensures SumOf(a, f) == SumOf(b, f)
    decreases |a|
  {
    if |a| == 0 {
      assert |b| == |multiset(b)| == 0;
    } else {
      var n := |a| - 1;
      var x := a[n];
      assert x in multiset(b);
      var j :| 0 <= j < |b| && b[j] == x;
      var front, back := b[..j], b[j + 1..];
      assert b == front + [x] + back;
      assert a == a[..n] + [x];
      assert multiset(a[..n]) == multiset(front + back) by {
        assert multiset(a) == multiset(a[..n]) + multiset{x};
        assert multiset(b) == multiset(front + back) + multiset{x};
        MultisetCancel(multiset(a[..n]), multiset(front + back), x);
      }
      SumOfPermutation(a[..n], front + back, f);
      SumOfAppend(front + [x], back, f);
      SumOfAppend(front, [x], f);
      SumOfAppend(front, back, f);
      SumOfSingle(x, f);
    }
  }

  // ---------------------------------------------- the reference totals

  /** 1 for an event of group `g` on the days [lo, hi), 0 otherwise. */
  function EventIn(g: Group, lo: Day, hi: Day): Event -> int {
    e => if EventKey(e).Some? && EventKey(e).value.group == g && lo <= e.day < hi then 1 else 0
  }

  /** The same for a payment. */
  function PaymentIn(g: Group, lo: Day, hi: Day): Payment -> int {
    p => if PaymentKey(p).Some? && PaymentKey(p).value.group == g && lo <= p.day < hi then 1 else 0
  }

  /** The amount of a payment of group `g` on the days [lo, hi), 0 otherwise. */
  function AmountIn(g: Group, lo: Day, hi: Day): Payment -> int {
    p => if PaymentKey(p).Some? && PaymentKey(p).value.group == g && lo <= p.day < hi then p.amount else 0
  }

  lemma {:induction false} CountBetweenSum(evs: seq<Event>, g: Group, lo: Day, hi: Day)
    ensures CountBetween(evs, g, lo, hi) == SumOf(evs, EventIn(g, lo, hi))
    decreases |evs|
  {
    if |evs| > 0 {
      CountBetweenSum(evs[..|evs| - 1], g, lo, hi);
    }
  }

  lemma {:induction false} PaymentsBetweenSum(pays: seq<Payment>, g: Group, lo: Day, hi: Day)
    ensures PaymentsBetween(pays, g, lo, hi) == SumOf(pays, PaymentIn(g, lo, hi))
    decreases |pays|
  {
    if |pays| > 0 {
      PaymentsBetweenSum(pays[..|pays| - 1], g, lo, hi);
    }
  }

  lemma {:induction false} AmountBetweenSum(pays: seq<Payment>, g: Group, lo: Day, hi: Day)
    ensures AmountBetween(pays, g, lo, hi) == SumOf(pays, AmountIn(g, lo, hi))
    decreases |pays|
  {
    if |pays| > 0 {
      AmountBetweenSum(pays[..|pays| - 1], g, lo, hi);
    }
  }

  // ------------------------------------------------ permuted inputs

  lemma CountBetweenPermutation(a: seq<Event>, b: seq<Event>, g: Group, lo: Day, hi: Day)
    requires multiset(a) == multiset(b)
    ensures CountBetween(a, g, lo, hi) == CountBetween(b, g, lo, hi)
  {
    CountBetweenSum(a, g, lo, hi);
    CountBetweenSum(b, g, lo, hi);
    SumOfPermutation(a, b, EventIn(g, lo, hi));
  }

  lemma PaymentsBetweenPermutation(a: seq<Payment>, b: seq<Payment>, g: Group, lo: Day, hi: Day)
    requires multiset(a) == multiset(b)
    ensures PaymentsBetween(a, g, lo, hi) == PaymentsBetween(b, g, lo, hi)
  {
    PaymentsBetweenSum(a, g, lo, hi);
    PaymentsBetweenSum(b, g, lo, hi);
    SumOfPermutation(a, b, PaymentIn(g, lo, hi));
  }

  lemma AmountBetweenPermutation(a: seq<Payment>, b: seq<Payment>, g: Group, lo: Day, hi: Day)
    requires multiset(a) == multiset(b)
    ensures AmountBetween(a, g, lo, hi) == AmountBetween(b, g, lo, hi)
  {
    AmountBetweenSum(a, g, lo, hi);
    AmountBetweenSum(b, g, lo, hi);
    SumOfPermutation(a, b, AmountIn(g, lo, hi));
  }

  /** An event found in one arrangement of the rows is found in any other. */
  lemma ActiveFromOneWay(a: seq<Event>, b: seq<Event>, g: Group, d: Day)
    requires multiset(a) == multiset(b) && ActiveFrom(a, g, d)
    ensures ActiveFrom(b, g, d)
  {
    var i :| 0 <= i < |a| && EventKey(a[i]).Some? && EventKey(a[i]).value.group == g && EventKey(a[i]).value.day >= d;
    assert a[i] in multiset(b);
    var j :| 0 <= j < |b| && b[j] == a[i];
  }

  lemma PaidFromOneWay(a: seq<Payment>, b: seq<Payment>, g: Group, d: Day)
    requires multiset(a) == multiset(b) && PaidFrom(a, g, d)
    ensures PaidFrom(b, g, d)
  {
    var i :| 0 <= i < |a| && PaymentKey(a[i]).Some? && PaymentKey(a[i]).value.group == g && PaymentKey(a[i]).value.day >= d;
    assert a[i] in multiset(b);
    var j :| 0 <= j < |b| && b[j] == a[i];
  }

  lemma HaveKeyOneWay(a: seq<Event>, b: seq<Event>, k: Key)
    requires multiset(a) == multiset(b) && EventsHaveKey(a, k)
    ensures EventsHaveKey(b, k)
  {
    var i :| 0 <= i < |a| && EventKey(a[i]) == Some(k);
    assert a[i] in multiset(b);
    var j :| 0 <= j < |b| && b[j] == a[i];
  }

  /** The latest impression day does not depend on the order of the rows. */
  lemma MaxDayPermutation(a: seq<Event>, b: seq<Event>)
    requires |a| > 0 && multiset(a) == multiset(b)
    ensures |b| > 0 && MaxDay(a) == MaxDay(b)
  {
    assert |b| == |multiset(b)| == |multiset(a)| == |a|;
    var i :| 0 <= i < |a| && a[i].day == MaxDay(a);
    var j :| 0 <= j < |b| && b[j].day == MaxDay(b);
    assert a[i] in multiset(b);
    assert b[j] in multiset(a);
  }

  /** Permuted impressions have the same target week, up to order. */
  lemma TargetWeekPermutation(a: seq<Event>, b: seq<Event>)
    requires multiset(a) == multiset(b)
    ensures multiset(TargetWeek(a)) == multiset(TargetWeek(b))
  {
    assert |a| == |multiset(a)| == |multiset(b)| == |b|;
    if |a| > 0 {
      MaxDayPermutation(a, b);
      assert forall e :: multiset(TargetWeek(a))[e] == multiset(TargetWeek(b))[e];
    } else {
      assert |TargetWeek(a)| == 0 && |TargetWeek(b)| == 0;
    }
  }

  /** An impression's as-written row is the same for any arrangement of the
      three inputs. */
  lemma AsWrittenRowPermutation(prints: seq<Event>, taps: seq<Event>, pays: seq<Payment>,
                                prints': seq<Event>, taps': seq<Event>, pays': seq<Payment>, e: Event)
    requires multiset(prints) == multiset(prints') && multiset(taps) == multiset(taps') && multiset(pays) == multiset(pays')
    ensures AsWrittenRow(prints, taps, pays, e) == AsWrittenRow(prints', taps', pays', e)
  {
    match EventKey(e)
    case None =>
    case Some(k) =>
      var lo := k.day - WindowDays;
      PriorOfKey(prints, pays, e, k);
      PriorOfKey(taps, pays', e, k);
      PriorOfKey(prints', pays, e, k);
      PriorOfKey(taps', pays', e, k);
      CountBetweenPermutation(prints, prints', k.group, lo, k.day);
      CountBetweenPermutation(taps, taps', k.group, lo, k.day);
      PaymentsBetweenPermutation(pays, pays', k.group, lo, k.day);
      AmountBetweenPermutation(pays, pays', k.group, lo, k.day);
      if ActiveFrom(taps, k.group, e.day) { ActiveFromOneWay(taps, taps', k.group, e.day); }
      if ActiveFrom(taps', k.group, e.day) { ActiveFromOneWay(taps', taps, k.group, e.day); }
      if PaidFrom(pays, k.group, e.day) { PaidFromOneWay(pays, pays', k.group, e.day); }
      if PaidFrom(pays', k.group, e.day) { PaidFromOneWay(pays', pays, k.group, e.day); }
      if EventsHaveKey(taps, k) { HaveKeyOneWay(taps, taps', k); }
      if EventsHaveKey(taps', k) { HaveKeyOneWay(taps', taps, k); }
  }

  /** `f` applied to every element of `s`, in order. */
  function Map<A, B>(f: A -> B, s: seq<A>): (r: seq<B>)
    ensures |r| == |s|
  {
    seq(|s|, i requires 0 <= i < |s| => f(s[i]))
  }

  lemma MapSplit<A, B>(f: A -> B, a: seq<A>, b: seq<A>)
    ensures Map(f, a + b) == Map(f, a) + Map(f, b)
  {
    var ab := a + b;
    assert forall i :: 0 <= i < |a| ==> ab[i] == a[i];
    assert forall i :: |a| <= i < |ab| ==> ab[i] == b[i - |a|];
  }

  /** Mapping two arrangements of the same elements gives two arrangements
      of the same results. */
  lemma {:induction false} MapPermutation<A, B>(f: A -> B, w: seq<A>, w': seq<A>)
    requires multiset(w) == multiset(w')
    ensures multiset(Map(f, w)) == multiset(Map(f, w'))
    decreases |w|
  {
    if |w| == 0 {
      assert |w'| == |multiset(w')| == 0;
    } else {
      var x := w[0];
      assert x in multiset(w');
      var j :| 0 <= j < |w'| && w'[j] == x;
      var front, back := w'[..j], w'[j + 1..];
      assert w' == front + [x] + back;
      assert w == [x] + w[1..];
      assert multiset(w[1..]) == multiset(front + back) by {
        assert multiset(w) == multiset(w[1..]) + multiset{x};
        assert multiset(w') == multiset(front + back) + multiset{x};
        MultisetCancel(multiset(w[1..]), multiset(front + back), x);
      }
      MapPermutation(f, w[1..], front + back);
      MapSplit(f, [x], w[1..]);
      MapSplit(f, front + [x], back);
      MapSplit(f, front, [x]);
      MapSplit(f, front, back);
    }
  }

  /** The as-written rows of two arrangements of the same impressions are
      the same rows. */
  lemma AsWrittenRowsPermutation(prints: seq<Event>, taps: seq<Event>, pays: seq<Payment>,
                                 w: seq<Event>, w': seq<Event>)
    requires multiset(w) == multiset(w')
    ensures multiset(AsWrittenRows(prints, taps, pays, w)) == multiset(AsWrittenRows(prints, taps, pays, w'))
  {
    var f := e => AsWrittenRow(prints, taps, pays, e);
    assert AsWrittenRows(prints, taps, pays, w) == Map(f, w);
    assert AsWrittenRows(prints, taps, pays, w') == Map(f, w');
    MapPermutation(f, w, w');
  }

  /** The same for the corrected rows. */
  lemma IntendedRowsPermutation(prints: seq<Event>, taps: seq<Event>, pays: seq<Payment>,
                                w: seq<Event>, w': seq<Event>)
    requires multiset(w) == multiset(w')
    ensures multiset(IntendedRows(prints, taps, pays, w)) == multiset(IntendedRows(prints, taps, pays, w'))
  {
    var f := e => IntendedRow(prints, taps, pays, e);
    assert IntendedRows(prints, taps, pays, w) == Map(f, w);
    assert IntendedRows(prints, taps, pays, w') == Map(f, w');
    MapPermutation(f, w, w');
  }

  /** The dataset as written does not depend on the order of the rows of
      any of its three inputs. */
  lemma AssembleIgnoresInputOrder(prints: seq<Event>, taps: seq<Event>, pays: seq<Payment>,
                                  prints': seq<Event>, taps': seq<Event>, pays': seq<Payment>)
    requires multiset(prints) == multiset(prints') && multiset(taps) == multiset(taps') && multiset(pays) == multiset(pays')
    ensures Assemble(prints, taps, pays) == Assemble(prints', taps', pays')
  {
    var w, w' := TargetWeek(prints), TargetWeek(prints');
    TargetWeekPermutation(prints, prints');
    forall i | 0 <= i < |w'|
      ensures AsWrittenRows(prints', taps', pays', w')[i] == AsWrittenRows(prints, taps, pays, w')[i]
    {
      AsWrittenRowPermutation(prints, taps, pays, prints', taps', pays', w'[i]);
    }
    assert AsWrittenRows(prints', taps', pays', w') == AsWrittenRows(prints, taps, pays, w');
    AsWrittenRowsPermutation(prints, taps, pays, w, w');
    AssembleRows(prints', taps', pays');
    AnySortIsAssemble(prints, taps, pays, Assemble(prints', taps', pays'));
  }

  /** An impression's corrected row is the same for any arrangement of the
      three inputs. */
  lemma IntendedRowPermutation(prints: seq<Event>, taps: seq<Event>, pays: seq<Payment>,
                               prints': seq<Event>, taps': seq<Event>, pays': seq<Payment>, e: Event)
    requires multiset(prints) == multiset(prints') && multiset(taps) == multiset(taps') && multiset(pays) == multiset(pays')
    ensures IntendedRow(prints, taps, pays, e) == IntendedRow(prints', taps', pays', e)
  {
    match EventKey(e)
    case None =>
    case Some(k) =>
      var lo := k.day - WindowDays;
      PriorOfKey(prints, pays, e, k);
      PriorOfKey(taps, pays', e, k);
      PriorOfKey(prints', pays, e, k);
      PriorOfKey(taps', pays', e, k);
      CountBetweenPermutation(prints, prints', k.group, lo, k.day);
      CountBetweenPermutation(taps, taps', k.group, lo, k.day);
      PaymentsBetweenPermutation(pays, pays', k.group, lo, k.day);
      AmountBetweenPermutation(pays, pays', k.group, lo, k.day);
      if EventsHaveKey(taps, k) { HaveKeyOneWay(taps, taps', k); }
      if EventsHaveKey(taps', k) { HaveKeyOneWay(taps', taps, k); }
  }

  /** The corrected dataset does not depend on the order of the input rows
      either. */
  lemma AssembleIntendedIgnoresInputOrder(prints: seq<Event>, taps: seq<Event>, pays: seq<Payment>,
                                          prints': seq<Event>, taps': seq<Event>, pays': seq<Payment>)
    requires multiset(prints) == multiset(prints') && multiset(taps) == multiset(taps') && multiset(pays) == multiset(pays')
    ensures AssembleIntended(prints, taps, pays) == AssembleIntended(prints', taps', pays')
  {
    var w, w' := TargetWeek(prints), TargetWeek(prints');
    TargetWeekPermutation(prints, prints');
    forall i | 0 <= i < |w'|
      ensures IntendedRows(prints', taps', pays', w')[i] == IntendedRows(prints, taps, pays, w')[i]
    {
      IntendedRowPermutation(prints, taps, pays, prints', taps', pays', w'[i]);
    }
    assert IntendedRows(prints', taps', pays', w') == IntendedRows(prints, taps, pays, w');
    IntendedRowsPermutation(prints, taps, pays, w, w');
    AssembleIntendedRows(prints', taps', pays');
    AnySortIsIntended(prints, taps, pays, AssembleIntended(prints', taps', pays'));
  }

  // ------------------------------------------------ later taps

  /** No event of `later` is in the days [lo, hi) when all of them are on
      day `hi` or after. */
  lemma {:induction false} LaterCountsNothing(later: seq<Event>, g: Group, lo: Day, hi: Day)
    requires forall i :: 0 <= i < |later| ==> later[i].day >= hi
    ensures CountBetween(later, g, lo, hi) == 0
    decreases |later|
  {
    if |later| > 0 {
      LaterCountsNothing(later[..|later| - 1], g, lo, hi);
    }
  }

  /** Corrected, an impression's tap history ignores every tap on or after
      its day: appending such taps leaves `taps_prev_3w` unchanged. */
  lemma IntendedIgnoresLaterTaps(prints: seq<Event>, taps: seq<Event>, later: seq<Event>, pays: seq<Payment>, e: Event)
    requires forall i :: 0 <= i < |later| ==> later[i].day >= e.day
    ensures IntendedRow(prints, taps + later, pays, e).tapsPrev3w == IntendedRow(prints, taps, pays, e).tapsPrev3w
  {
    match EventKey(e)
    case None =>
    case Some(k) =>
      var lo := k.day - WindowDays;
      PriorOfKey(taps, pays, e, k);
      PriorOfKey(taps + later, pays, e, k);
      CountBetweenSum(taps + later, k.group, lo, k.day);
      CountBetweenSum(taps, k.group, lo, k.day);
      CountBetweenSum(later, k.group, lo, k.day);
      SumOfAppend(taps, later, EventIn(k.group, lo, k.day));
      LaterCountsNothing(later, k.group, lo, k.day);
  }
}
