/** The final ordering of the dataset: rows sorted by
    (day, user_id, value_prop, position), ascending, with a missing
    value_prop or position placed after every present one. */
module Ordering {
  import opened Records

  datatype Cmp = Lt | Eq | Gt

  function Flip(c: Cmp): Cmp {
    match c
    case Lt => Gt
    case Eq => Eq
    case Gt => Lt
  }

  /** Lexicographic combination: the second comparison decides only a tie
      of the first. */
  function Then(first: Cmp, second: Cmp): Cmp {
    if first == Eq then second else first
  }

  function CompareInt(a: int, b: int): Cmp {
    if a < b then Lt else if a > b then Gt else Eq
  }

  /** Code-point-wise comparison of strings; a proper prefix comes first. */
  function CompareString(a: string, b: string): Cmp
    decreases |a|
  {
    if |a| == 0 && |b| == 0 then Eq
    else if |a| == 0 then Lt
    else if |b| == 0 then Gt
    else if a[0] < b[0] then Lt
    else if a[0] > b[0] then Gt
    else CompareString(a[1..], b[1..])
  }

  /** A missing value sorts after every present one. */
  function CompareOptString(a: Option<string>, b: Option<string>): Cmp {
    match (a, b)
    case (None, None) => Eq
    case (None, Some(_)) => Gt
    case (Some(_), None) => Lt
    case (Some(x), Some(y)) => CompareString(x, y)
  }

  function CompareOptInt(a: Option<int>, b: Option<int>): Cmp {
    match (a, b)
    case (None, None) => Eq
    case (None, Some(_)) => Gt
    case (Some(_), None) => Lt
    case (Some(x), Some(y)) => CompareInt(x, y)
  }

  /** The sort key of an output row: (day, user_id, value_prop, position). */
  function CompareRows(a: FeatureRow, b: FeatureRow): Cmp {
    Then(CompareInt(a.day, b.day),
      Then(CompareString(a.user, b.user),
        Then(CompareOptString(a.valueProp, b.valueProp),
          CompareOptInt(a.position, b.position))))
  }

  /** Two rows share the sort key. */
  predicate SameSortKey(a: FeatureRow, b: FeatureRow) {
    a.day == b.day && a.user == b.user && a.valueProp == b.valueProp && a.position == b.position
  }

  predicate RowLe(a: FeatureRow, b: FeatureRow) {
    CompareRows(a, b) != Gt
  }

  predicate Sorted(s: seq<FeatureRow>) {
    forall i, j :: 0 <= i < j < |s| ==> RowLe(s[i], s[j])
  }

  // ------------------------------------------------------ order laws

  lemma {:induction false} CompareStringLaws(a: string, b: string)
    ensures CompareString(a, b) == Eq <==> a == b
    ensures CompareString(b, a) == Flip(CompareString(a, b))
    decreases |a|
  {
    if |a| > 0 && |b| > 0 && a[0] == b[0] {
      CompareStringLaws(a[1..], b[1..]);
      if a[1..] == b[1..] {
        assert a == [a[0]] + a[1..] && b == [b[0]] + b[1..];
      }
    }
  }

  lemma {:induction false} CompareStringTrans(a: string, b: string, c: string)
    requires CompareString(a, b) != Gt && CompareString(b, c) != Gt
    ensures CompareString(a, c) != Gt
    decreases |a|
  {
    if |a| > 0 && |b| > 0 && |c| > 0 && a[0] == b[0] && b[0] == c[0] {
      CompareStringTrans(a[1..], b[1..], c[1..]);
    }
  }

  lemma CompareOptStringLaws(a: Option<string>, b: Option<string>)
    ensures CompareOptString(a, b) == Eq <==> a == b
    ensures CompareOptString(b, a) == Flip(CompareOptString(a, b))
  {
    if a.Some? && b.Some? {
      CompareStringLaws(a.value, b.value);
    }
  }

  lemma CompareOptStringTrans(a: Option<string>, b: Option<string>, c: Option<string>)
    requires CompareOptString(a, b) != Gt && CompareOptString(b, c) != Gt
    ensures CompareOptString(a, c) != Gt
  {
    if a.Some? && b.Some? && c.Some? {
      CompareStringTrans(a.value, b.value, c.value);
    }
  }

  /** CompareRows is a total preorder whose ties are exactly the rows with
      the same sort key: it answers Eq iff the keys agree, swapping its
      arguments flips the answer, and it is transitive. */
  lemma CompareRowsLaws(a: FeatureRow, b: FeatureRow)
    ensures CompareRows(a, b) == Eq <==> SameSortKey(a, b)
    ensures CompareRows(b, a) == Flip(CompareRows(a, b))
  {
    CompareStringLaws(a.user, b.user);
    CompareOptStringLaws(a.valueProp, b.valueProp);
  }

  lemma CompareRowsTrans(a: FeatureRow, b: FeatureRow, c: FeatureRow)
    requires RowLe(a, b) && RowLe(b, c)
    ensures RowLe(a, c)
  {
    CompareRowsLaws(a, b);
    CompareRowsLaws(b, c);
    CompareRowsLaws(a, c);
    CompareStringLaws(a.user, b.user);
    CompareStringLaws(b.user, c.user);
    CompareStringLaws(a.user, c.user);
    CompareOptStringLaws(a.valueProp, b.valueProp);
    CompareOptStringLaws(b.valueProp, c.valueProp);
    CompareOptStringLaws(a.valueProp, c.valueProp);
    if a.day == b.day && b.day == c.day {
      if CompareString(a.user, b.user) == Eq && CompareString(b.user, c.user) == Eq {
        if CompareOptString(a.valueProp, b.valueProp) == Eq && CompareOptString(b.valueProp, c.valueProp) == Eq {
        } else {
          CompareOptStringTrans(a.valueProp, b.valueProp, c.valueProp);
        }
      } else {
        CompareStringTrans(a.user, b.user, c.user);
      }
    }
  }

  lemma RowLeTotal(a: FeatureRow, b: FeatureRow)
    ensures RowLe(a, b) || RowLe(b, a)
  {
    CompareRowsLaws(a, b);
  }

  // ------------------------------------------------------------ sorting

  /** Insert `x` into a sorted sequence, after every row not above it. */
  function Insert(x: FeatureRow, s: seq<FeatureRow>): (r: seq<FeatureRow>)
    requires Sorted(s)
    ensures Sorted(r)
    ensures multiset(r) == multiset(s) + multiset{x}
    decreases |s|
  {
    if |s| == 0 then [x]
    else if RowLe(s[0], x) then
      var rest := Insert(x, s[1..]);
      InsertHead(x, s, rest);
      [s[0]] + rest
    else
      RowLeTotal(s[0], x);
      InsertFront(x, s);
      [x] + s
  }

  lemma InsertHead(x: FeatureRow, s: seq<FeatureRow>, rest: seq<FeatureRow>)
    requires Sorted(s) && |s| > 0 && RowLe(s[0], x)
    requires Sorted(rest)
    requires multiset(rest) == multiset(s[1..]) + multiset{x}
    ensures Sorted([s[0]] + rest)
    ensures multiset([s[0]] + rest) == multiset(s) + multiset{x}
  {
    assert s == [s[0]] + s[1..];
    HeadBelowRest(x, s, rest);
    var r := [s[0]] + rest;
    forall i, j | 0 <= i < j < |r| ensures RowLe(r[i], r[j]) {
      if i > 0 {
        assert r[i] == rest[i - 1] && r[j] == rest[j - 1];
      } else {
        assert r[j] == rest[j - 1];
      }
    }
  }

  /** The head of a sorted sequence is not above anything inserted behind it. */
  lemma HeadBelowRest(x: FeatureRow, s: seq<FeatureRow>, rest: seq<FeatureRow>)
    requires Sorted(s) && |s| > 0 && RowLe(s[0], x)
    requires multiset(rest) == multiset(s[1..]) + multiset{x}
    ensures forall j :: 0 <= j < |rest| ==> RowLe(s[0], rest[j])
  {
    forall j | 0 <= j < |rest| ensures RowLe(s[0], rest[j]) {
      assert rest[j] in multiset(rest);
      if rest[j] != x {
        assert rest[j] in multiset(s[1..]);
        var m :| 0 <= m < |s[1..]| && s[1..][m] == rest[j];
        assert s[m + 1] == rest[j];
      }
    }
  }

  lemma InsertFront(x: FeatureRow, s: seq<FeatureRow>)
    requires Sorted(s) && |s| > 0 && RowLe(x, s[0])
    ensures Sorted([x] + s)
  {
    var r := [x] + s;
    forall i, j | 0 <= i < j < |r| ensures RowLe(r[i], r[j]) {
      if i == 0 {
        assert r[j] == s[j - 1];
        if j > 1 {
          CompareRowsTrans(x, s[0], s[j - 1]);
        }
      } else {
        assert r[i] == s[i - 1] && r[j] == s[j - 1];
      }
    }
  }

  /** `sort_values` on the four key columns: a sorted permutation. */
  function SortRows(s: seq<FeatureRow>): (r: seq<FeatureRow>)
    ensures Sorted(r)
    ensures multiset(r) == multiset(s)
    ensures |r| == |s|
    decreases |s|
  {
    if |s| == 0 then []
    else
      LastSplit(s);
      Insert(s[|s| - 1], SortRows(s[..|s| - 1]))
  }

  lemma LastSplit(s: seq<FeatureRow>)
    requires |s| > 0
    ensures multiset(s) == multiset(s[..|s| - 1]) + multiset{s[|s| - 1]}
  {
    assert s == s[..|s| - 1] + [s[|s| - 1]];
  }

  // -------------------------------------------------------- uniqueness

  /** Rows that share a sort key are identical. */
  predicate TiesIdentical(m: multiset<FeatureRow>) {
    forall a, b :: a in m && b in m && SameSortKey(a, b) ==> a == b
  }

  /** When tied rows are identical, a sorted arrangement of a collection is
      unique: any two sorted sequences with the same rows are equal, so the
      output does not depend on how the sort breaks ties. */
  lemma {:induction false} SortedUnique(a: seq<FeatureRow>, b: seq<FeatureRow>)
    requires Sorted(a) && Sorted(b)
    requires multiset(a) == multiset(b)
    requires TiesIdentical(multiset(a))
    ensures a == b
    decreases |a|
  {
    if |a| > 0 {
      UniqueStep(a, b);
      SortedUnique(a[1..], b[1..]);
      assert a == [a[0]] + a[1..];
      assert b == [b[0]] + b[1..];
    } else {
      assert |multiset(b)| == |b|;
    }
  }

  /** The heads agree and the tails meet the conditions again. */
  lemma UniqueStep(a: seq<FeatureRow>, b: seq<FeatureRow>)
    requires Sorted(a) && Sorted(b) && |a| > 0
    requires multiset(a) == multiset(b)
    requires TiesIdentical(multiset(a))
    ensures |b| > 0 && a[0] == b[0]
    ensures Sorted(a[1..]) && Sorted(b[1..])
    ensures multiset(a[1..]) == multiset(b[1..])
    ensures TiesIdentical(multiset(a[1..]))
  {
    assert |multiset(a)| == |a| && |multiset(b)| == |b|;
    SortedHeads(a, b);
    HeadSplit(a);
    HeadSplit(b);
    SortedTail(a);
    SortedTail(b);
    TiesIdenticalTail(a);
    assert multiset(a[1..]) == multiset(a) - multiset{a[0]};
    assert multiset(b[1..]) == multiset(b) - multiset{b[0]};
  }

  /** Two sorted arrangements of the same rows start with the same row. */
  lemma SortedHeads(a: seq<FeatureRow>, b: seq<FeatureRow>)
    requires Sorted(a) && Sorted(b) && |a| > 0 && |b| > 0
    requires multiset(a) == multiset(b)
    requires TiesIdentical(multiset(a))
    ensures a[0] == b[0]
  {
    assert a[0] in multiset(b);
    assert b[0] in multiset(a);
    var i :| 0 <= i < |b| && b[i] == a[0];
    var j :| 0 <= j < |a| && a[j] == b[0];
    CompareRowsLaws(a[0], b[0]);
    assert i > 0 ==> RowLe(b[0], b[i]);
    assert j > 0 ==> RowLe(a[0], a[j]);
  }

  lemma TiesIdenticalTail(s: seq<FeatureRow>)
    requires TiesIdentical(multiset(s)) && |s| > 0
    ensures TiesIdentical(multiset(s[1..]))
  {
    HeadSplit(s);
  }

  lemma HeadSplit(s: seq<FeatureRow>)
    requires |s| > 0
    ensures multiset(s) == multiset{s[0]} + multiset(s[1..])
  {
    assert s == [s[0]] + s[1..];
  }

  lemma SortedTail(s: seq<FeatureRow>)
    requires Sorted(s) && |s| > 0
    ensures Sorted(s[1..])
  {
    forall p, q | 0 <= p < q < |s| - 1 ensures RowLe(s[1..][p], s[1..][q]) {
      assert s[1..][p] == s[p + 1] && s[1..][q] == s[q + 1];
    }
  }
}
