/**
 The per-instrument trend signal.

 The prices of one row, oldest first, are split into a head and a tail of the
 newest five samples. The trend is +1 when the row's maximum occurs nowhere in
 the head, otherwise -1 when its minimum occurs nowhere in the head, otherwise 0.
 A repeated maximum (or minimum) inside the tail does not prevent the signal.
 */
module Trend {

  /** Number of newest samples the lookback examines. */
  const Tail: nat := 5

  /** Largest sample of a non-empty window. */
  function Max(s: seq<int>): (m: int)
    requires |s| > 0
    ensures m in s
    ensures forall i :: 0 <= i < |s| ==> s[i] <= m
  {
    if |s| == 1 then s[0]
    else
      var m := Max(s[1..]);
      if s[0] > m then s[0] else m
  }

  /** Smallest sample of a non-empty window. */
  function Min(s: seq<int>): (m: int)
    requires |s| > 0
    ensures m in s
    ensures forall i :: 0 <= i < |s| ==> m <= s[i]
  {
    if |s| == 1 then s[0]
    else
      var m := Min(s[1..]);
      if s[0] < m then s[0] else m
  }

  /** Length of the head `prices[:-5]`: everything except the newest five, and
      nothing when the window holds five samples or fewer. */
  function HeadLength(s: seq<int>): (h: nat)
    ensures h <= |s|
    ensures |s| - h == if |s| < Tail then |s| else Tail
  {
    if |s| > Tail then |s| - Tail else 0
  }

  /** The head `prices[:-5]`. */
  function Head(s: seq<int>): seq<int> {
    s[..HeadLength(s)]
  }

  /** Trend of one window: +1, -1 or 0, the maximum test taking precedence. */
  function Classify(prices: seq<int>): (t: int)
    requires |prices| > 0
    ensures -1 <= t <= 1
  {
    if Max(prices) !in Head(prices) then 1
    else if Min(prices) !in Head(prices) then -1
    else 0
  }

  /** A higher high: some tail sample exceeds every head sample. */
  predicate HigherHigh(s: seq<int>) {
    exists i :: HeadLength(s) <= i < |s| && forall j :: 0 <= j < HeadLength(s) ==> s[j] < s[i]
  }

  /** A lower low: some tail sample is below every head sample. */
  predicate LowerLow(s: seq<int>) {
    exists i :: HeadLength(s) <= i < |s| && forall j :: 0 <= j < HeadLength(s) ==> s[i] < s[j]
  }

  /** Membership in the head, by position. */
  lemma InHead(s: seq<int>, x: int)
    ensures x in Head(s) <==> exists j :: 0 <= j < HeadLength(s) && s[j] == x
  {
    if x in Head(s) {
      var j :| 0 <= j < HeadLength(s) && Head(s)[j] == x;
      assert s[j] == x;
    }
    if exists j :: 0 <= j < HeadLength(s) && s[j] == x {
      var j :| 0 <= j < HeadLength(s) && s[j] == x;
      assert Head(s)[j] == x;
    }
  }

  /** The value at position i is the maximum when nothing exceeds it. */
  lemma MaxIs(s: seq<int>, i: int)
    requires 0 <= i < |s| && forall j :: 0 <= j < |s| ==> s[j] <= s[i]
    ensures Max(s) == s[i]
  {
  }

  /** The value at position i is the minimum when nothing is below it. */
  lemma MinIs(s: seq<int>, i: int)
    requires 0 <= i < |s| && forall j :: 0 <= j < |s| ==> s[i] <= s[j]
    ensures Min(s) == s[i]
  {
  }

  /** The maximum occurs nowhere in the head exactly when the tail holds a higher high. */
  lemma MaxOutsideHeadIff(s: seq<int>)
    requires |s| > 0
    ensures Max(s) !in Head(s) <==> HigherHigh(s)
  {
    var h := HeadLength(s);
    var m := Max(s);
    InHead(s, m);
    if m !in Head(s) {
      var i :| 0 <= i < |s| && s[i] == m;
      assert h <= i;
      assert forall j :: 0 <= j < h ==> s[j] < s[i];
    } else {
      var j :| 0 <= j < h && s[j] == m;
      forall i | h <= i < |s|
        ensures !(s[j] < s[i])
      {
        assert s[i] <= m;
      }
    }
  }

  /** The minimum occurs nowhere in the head exactly when the tail holds a lower low. */
  lemma MinOutsideHeadIff(s: seq<int>)
    requires |s| > 0
    ensures Min(s) !in Head(s) <==> LowerLow(s)
  {
    var h := HeadLength(s);
    var m := Min(s);
    InHead(s, m);
    if m !in Head(s) {
      var i :| 0 <= i < |s| && s[i] == m;
      assert h <= i;
      assert forall j :: 0 <= j < h ==> s[i] < s[j];
    } else {
      var j :| 0 <= j < h && s[j] == m;
      forall i | h <= i < |s|
        ensures !(s[i] < s[j])
      {
        assert m <= s[i];
      }
    }
  }

  /** The classifier against its independent reading: +1 iff a higher high,
      -1 iff a lower low without a higher high, 0 iff neither. */
  lemma ClassifyMeaning(s: seq<int>)
    requires |s| > 0
    ensures Classify(s) == 1 <==> HigherHigh(s)
    ensures Classify(s) == -1 <==> !HigherHigh(s) && LowerLow(s)
    ensures Classify(s) == 0 <==> !HigherHigh(s) && !LowerLow(s)
  {
    MaxOutsideHeadIff(s);
    MinOutsideHeadIff(s);
  }

  /** A window of five samples or fewer has an empty head and always rises. */
  lemma ShortWindowRises(s: seq<int>)
    requires 0 < |s| <= Tail
    ensures Classify(s) == 1
  {
    assert Head(s) == [];
  }

  /** Only the multiset of head samples matters: reordering the head keeps the trend. */
  lemma HeadOrderIrrelevant(s: seq<int>, t: seq<int>)
    requires |s| == |t| > 0
    requires multiset(Head(s)) == multiset(Head(t))
    requires s[HeadLength(s)..] == t[HeadLength(t)..]
    ensures Classify(s) == Classify(t)
  {
    var h := HeadLength(s);
    assert s == Head(s) + s[h..];
    assert t == Head(t) + t[h..];
    assert multiset(s) == multiset(t);
    assert Max(s) in multiset(t) && Max(t) in multiset(s);
    assert Max(s) == Max(t);
    assert Min(s) in multiset(t) && Min(t) in multiset(s);
    assert Min(s) == Min(t);
    assert forall x :: x in Head(s) <==> x in multiset(Head(s));
    assert forall x :: x in Head(t) <==> x in multiset(Head(t));
  }

  /** A window whose largest value occurs at two tail positions, and is
      greater than every head sample, still gives +1: the maximum need not be
      unique. */
  lemma RepeatedMaxInTailRises(s: seq<int>, i1: int, i2: int)
    requires HeadLength(s) <= i1 < i2 < |s| && s[i1] == s[i2]
    requires forall k :: 0 <= k < |s| ==> s[k] <= s[i1]
    requires forall j :: 0 <= j < HeadLength(s) ==> s[j] < s[i1]
    ensures Classify(s) == 1
  {
    MaxIs(s, i1);
    InHead(s, s[i1]);
  }

  /** A falling window has its maximum oldest and its minimum newest: -1. */
  lemma FallingWindow()
    ensures Classify([10, 9, 8, 7, 6, 5, 4, 3, 2, 1]) == -1
  {
    var s := [10, 9, 8, 7, 6, 5, 4, 3, 2, 1];
    assert HeadLength(s) == 5;
    forall i | HeadLength(s) <= i < |s|
      ensures !(forall j :: 0 <= j < HeadLength(s) ==> s[j] < s[i])
    {
      assert !(s[0] < s[i]);
    }
    assert forall j :: 0 <= j < HeadLength(s) ==> s[9] < s[j];
    ClassifyMeaning(s);
  }

  /** A rising window ends on its unique maximum: +1. */
  lemma RisingWindow()
    ensures Classify([1, 2, 3, 4, 5, 6, 7, 8, 9, 10]) == 1
  {
    var s := [1, 2, 3, 4, 5, 6, 7, 8, 9, 10];
    assert Head(s) == [1, 2, 3, 4, 5];
    MaxIs(s, 9);
  }

  /** A flat window has its maximum and minimum in the head: 0. */
  lemma FlatWindow()
    ensures Classify([4, 4, 4, 4, 4, 4]) == 0
  {
    var s := [4, 4, 4, 4, 4, 4];
    assert Head(s) == [4];
    MaxIs(s, 0);
    MinIs(s, 0);
  }
}
