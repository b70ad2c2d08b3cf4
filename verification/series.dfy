/** The two series operations the trailing window is built from:
    `rolling(window=w, min_periods=1).sum()` and `shift(1).fillna(0)`,
    over a dense day-indexed series of integers. */
module Series {

  function Max(a: int, b: int): int {
    if a >= b then a else b
  }

  /** Sum of the entries s[lo], ..., s[hi - 1]. */
  function SumRange(s: seq<int>, lo: int, hi: int): int
    requires 0 <= lo <= hi <= |s|
    decreases hi - lo
  {
    if lo == hi then 0 else SumRange(s, lo, hi - 1) + s[hi - 1]
  }

  /** A range sum can also be peeled from the front. */
  lemma {:induction false} SumRangeFront(s: seq<int>, lo: int, hi: int)
    requires 0 <= lo < hi <= |s|
    ensures SumRange(s, lo, hi) == s[lo] + SumRange(s, lo + 1, hi)
    decreases hi - lo
  {
    if hi > lo + 1 {
      SumRangeFront(s, lo, hi - 1);
    }
  }

  /** Rolling sum with minimum one period: entry i sums the `w` entries
      ending at i, or all entries up to i when fewer than `w` exist. */
  function Rolling(s: seq<int>, w: nat): (r: seq<int>)
    ensures |r| == |s|
  {
    seq(|s|, i requires 0 <= i < |s| => SumRange(s, Max(0, i - w + 1), i + 1))
  }

  /** Shift by one position, filling the vacated first entry with 0. */
  function Shift(s: seq<int>): (r: seq<int>)
    ensures |r| == |s|
  {
    if |s| == 0 then [] else [0] + s[..|s| - 1]
  }

  /** Shifting a rolling sum by one gives, at each position, the sum of the
      `w` entries strictly before it: the entry itself is never included. */
  lemma ShiftedRolling(s: seq<int>, w: nat)
    requires w > 0
    ensures forall i :: 0 <= i < |s| ==> Shift(Rolling(s, w))[i] == SumRange(s, Max(0, i - w), i)
  {
    var prev := Shift(Rolling(s, w));
    forall i | 0 <= i < |s| ensures prev[i] == SumRange(s, Max(0, i - w), i) {
      if i > 0 {
        assert prev[i] == Rolling(s, w)[i - 1];
      }
    }
  }

  /** The shifted rolling sum in one pass, keeping a running window total:
      each step adds the newest entry and drops the one that leaves the
      window. */
  method ShiftedRollingSum(s: seq<int>, w: nat) returns (prev: seq<int>)
    requires w > 0
    ensures |prev| == |s|
    ensures forall i :: 0 <= i < |s| ==> prev[i] == SumRange(s, Max(0, i - w), i)
    ensures prev == Shift(Rolling(s, w))
  {
    prev := [];
    var acc := 0;
    var i := 0;
    while i < |s|
      invariant 0 <= i <= |s|
      invariant |prev| == i
      invariant forall j :: 0 <= j < i ==> prev[j] == SumRange(s, Max(0, j - w), j)
      invariant acc == SumRange(s, Max(0, i - w), i)
    {
      prev := prev + [acc];
      if i >= w {
        SumRangeFront(s, i - w, i + 1);
        acc := acc + s[i] - s[i - w];
      } else {
        acc := acc + s[i];
      }
      i := i + 1;
    }
    ShiftedRolling(s, w);
  }
}
