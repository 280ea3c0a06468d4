/**
 The rolling price window of the snapshot frame.

 A frame has two identity columns, Component and ISIN, followed by age columns
 labelled `1m` .. `720m`: the column labelled `km` holds the last-trade price
 sampled k minutes ago. Each cycle renames every age column one minute older,
 discards the column labelled `720m`, and writes the freshly fetched prices into
 the column `1m`.
 */
module PriceWindow {
  import opened Optional

  /** Oldest age label a frame keeps; the shift discards the column `720m`. */
  const Width: int := 720

  /** A sampled price in hundredths; `None` is the NaN a failed fetch leaves. */
  type Cell = Option<int>

  /** One index constituent: its identity columns and its age cells in column order. */
  datatype Row = Row(component: string, isin: string, cells: seq<Cell>)

  /** `ages[j]` is the minute count in the label of the j-th age column, and
      cell j of every row belongs to that column. */
  datatype Frame = Frame(ages: seq<int>, rows: seq<Row>)

  /** Every row has one cell per age column. */
  predicate Rectangular(f: Frame) {
    forall i :: 0 <= i < |f.rows| ==> |f.rows[i].cells| == |f.ages|
  }

  /** The layout every snapshot keeps: age columns `nm, (n-1)m, ..., 1m`,
      oldest first, with n at most 720. */
  predicate Aligned(f: Frame) {
    && Rectangular(f)
    && |f.ages| <= Width
    && forall j :: 0 <= j < |f.ages| ==> f.ages[j] == |f.ages| - j
  }

  /** The rename map of the shift: `km` becomes `(k+1)m` for 1 <= k <= 719,
      and any other label is left as it is. */
  function Rename(minutes: int): (r: int)
    ensures minutes <= r <= minutes + 1
    ensures r == minutes + 1 <==> 1 <= minutes < Width
  {
    if 1 <= minutes < Width then minutes + 1 else minutes
  }

  /** The rename map sends both `719m` and `720m` to `720m`: it is deleting
      the column `720m` first that keeps the renamed labels apart. */
  lemma RenameMerges719And720()
    ensures Rename(Width - 1) == Rename(Width) == Width
  {
  }

  /** Away from `720m` the rename map is one-to-one, so distinct surviving
      labels stay distinct. */
  lemma RenameInjectiveOffWidth(a: int, b: int)
    requires a != Width && b != Width && Rename(a) == Rename(b)
    ensures a == b
  {
  }

  /** Positions of the columns that survive deleting the column `720m`, in column order. */
  function Kept(ages: seq<int>): (ks: seq<nat>)
    ensures |ks| <= |ages|
    ensures forall i :: 0 <= i < |ks| ==> ks[i] < |ages| && ages[ks[i]] != Width
    ensures forall i, j :: 0 <= i < j < |ks| ==> ks[i] < ks[j]
    ensures forall j :: 0 <= j < |ages| && ages[j] != Width ==> j in ks
    decreases |ages|
  {
    if |ages| == 0 then []
    else
      var ks := Kept(ages[..|ages| - 1]);
      if ages[|ages| - 1] != Width then ks + [|ages| - 1] else ks
  }

  /** The cells at positions `ks`, in that order. */
  function Select(cells: seq<Cell>, ks: seq<nat>): (r: seq<Cell>)
    requires forall i :: 0 <= i < |ks| ==> ks[i] < |cells|
    ensures |r| == |ks|
    ensures forall i :: 0 <= i < |ks| ==> r[i] == cells[ks[i]]
  {
    seq(|ks|, i requires 0 <= i < |ks| => cells[ks[i]])
  }

  /** Shift by one minute: delete the column `720m` if present, then rename
      every age column by `Rename`. */
  function Shift(f: Frame): (g: Frame)
    requires Rectangular(f)
    ensures Rectangular(g)
    ensures |g.rows| == |f.rows|
    ensures forall i :: 0 <= i < |f.rows| ==>
              g.rows[i].component == f.rows[i].component && g.rows[i].isin == f.rows[i].isin
    ensures |g.ages| <= |f.ages|
    ensures forall j :: 0 <= j < |g.ages| ==> g.ages[j] != 1
  {
    var ks := Kept(f.ages);
    Frame(seq(|ks|, i requires 0 <= i < |ks| => Rename(f.ages[ks[i]])),
          seq(|f.rows|, r requires 0 <= r < |f.rows| =>
            f.rows[r].(cells := Select(f.rows[r].cells, ks))))
  }

  /** Assigning the column `1m`: an existing column `1m` is overwritten in
      place, otherwise a new column `1m` is appended after the others. Row r
      receives `prices[r]`. */
  function Fill(f: Frame, prices: seq<Cell>): (g: Frame)
    requires Rectangular(f) && |prices| == |f.rows|
    ensures Rectangular(g)
    ensures |g.rows| == |f.rows|
    ensures forall i :: 0 <= i < |f.rows| ==>
              g.rows[i].component == f.rows[i].component && g.rows[i].isin == f.rows[i].isin
    ensures 1 in g.ages
    ensures |g.ages| == if 1 in f.ages then |f.ages| else |f.ages| + 1
    ensures forall r, j :: 0 <= r < |g.rows| && 0 <= j < |g.ages| && g.ages[j] == 1 ==>
              g.rows[r].cells[j] == prices[r]
    ensures forall r, j :: 0 <= r < |g.rows| && 0 <= j < |g.ages| && g.ages[j] != 1 ==>
              j < |f.ages| && g.ages[j] == f.ages[j] && g.rows[r].cells[j] == f.rows[r].cells[j]
    ensures forall r, j :: 0 <= r < |f.rows| && 0 <= j < |f.ages| && f.ages[j] != 1 ==>
              g.ages[j] == f.ages[j] && g.rows[r].cells[j] == f.rows[r].cells[j]
  {
    if 1 in f.ages then
      Frame(f.ages, seq(|f.rows|, r requires 0 <= r < |f.rows| =>
        f.rows[r].(cells := seq(|f.ages|, j requires 0 <= j < |f.ages| =>
          if f.ages[j] == 1 then prices[r] else f.rows[r].cells[j]))))
    else
      Frame(f.ages + [1], seq(|f.rows|, r requires 0 <= r < |f.rows| =>
        f.rows[r].(cells := f.rows[r].cells + [prices[r]])))
  }

  /** The cell of row r sampled k minutes ago, in an aligned frame. */
  function AgeCell(f: Frame, r: int, k: int): Cell
    requires Aligned(f) && 0 <= r < |f.rows| && 1 <= k <= |f.ages|
  {
    f.rows[r].cells[|f.ages| - k]
  }

  /** The smaller of two integers. */
  function MinInt(a: int, b: int): int {
    if a <= b then a else b
  }

  /** Every sample outside the column `720m` survives the shift: it keeps its
      cell and moves to the renamed label. */
  lemma ShiftMovesEverySample(f: Frame, r: int, j: int)
    requires Rectangular(f) && 0 <= r < |f.rows|
    requires 0 <= j < |f.ages| && f.ages[j] != Width
    ensures exists k :: 0 <= k < |Shift(f).ages| &&
              Shift(f).ages[k] == Rename(f.ages[j]) && Shift(f).rows[r].cells[k] == f.rows[r].cells[j]
  {
    var ks := Kept(f.ages);
    var k :| 0 <= k < |ks| && ks[k] == j;
    assert Shift(f).rows[r].cells[k] == f.rows[r].cells[j];
  }

  /** Two surviving samples keep their relative order through the shift. */
  lemma ShiftKeepsOrder(f: Frame, r: int, j1: int, j2: int)
    requires Rectangular(f) && 0 <= r < |f.rows|
    requires 0 <= j1 < j2 < |f.ages| && f.ages[j1] != Width && f.ages[j2] != Width
    ensures exists k1, k2 :: 0 <= k1 < k2 < |Shift(f).ages| &&
              Shift(f).ages[k1] == Rename(f.ages[j1]) && Shift(f).rows[r].cells[k1] == f.rows[r].cells[j1] &&
              Shift(f).ages[k2] == Rename(f.ages[j2]) && Shift(f).rows[r].cells[k2] == f.rows[r].cells[j2]
  {
    var ks := Kept(f.ages);
    var k1 :| 0 <= k1 < |ks| && ks[k1] == j1;
    var k2 :| 0 <= k2 < |ks| && ks[k2] == j2;
    assert Shift(f).rows[r].cells[k1] == f.rows[r].cells[j1];
    assert Shift(f).rows[r].cells[k2] == f.rows[r].cells[j2];
  }

  /** Nothing survives the shift except samples from columns other than `720m`. */
  lemma ShiftDropsOnlyWidth(f: Frame, r: int, k: int)
    requires Rectangular(f) && 0 <= r < |f.rows| && 0 <= k < |Shift(f).ages|
    ensures exists j :: 0 <= j < |f.ages| && f.ages[j] != Width &&
              Shift(f).ages[k] == Rename(f.ages[j]) && Shift(f).rows[r].cells[k] == f.rows[r].cells[j]
  {
    var ks := Kept(f.ages);
    assert Shift(f).rows[r].cells[k] == f.rows[r].cells[ks[k]];
  }

  /** On labels in which `720m` can only be the first column, the surviving
      positions are all positions from `d` on. */
  lemma {:induction false} KeptSkipsLeading(ages: seq<int>, d: int)
    requires 0 <= d <= 1 && d <= |ages|
    requires forall j :: 0 <= j < |ages| ==> (ages[j] == Width <==> j < d)
    ensures |Kept(ages)| == |ages| - d
    ensures forall i :: 0 <= i < |Kept(ages)| ==> Kept(ages)[i] == i + d
    decreases |ages|
  {
    if |ages| == d {
      if d == 1 {
        assert ages[0] == Width;
        assert Kept(ages) == Kept(ages[..0]);
      }
    } else {
      var init := ages[..|ages| - 1];
      KeptSkipsLeading(init, d);
      assert Kept(ages) == Kept(init) + [|ages| - 1];
    }
  }

  /** On an aligned frame the shift leaves labels `m+1, m, ..., 2` with
      m = min(n, 719), dropping the oldest cell exactly when it was `720m`. */
  lemma ShiftAligned(f: Frame)
    requires Aligned(f)
    ensures |Shift(f).ages| == MinInt(|f.ages|, Width - 1)
    ensures forall i :: 0 <= i < |Shift(f).ages| ==> Shift(f).ages[i] == |Shift(f).ages| - i + 1
    ensures forall r, i :: 0 <= r < |f.rows| && 0 <= i < |Shift(f).ages| ==>
              Shift(f).rows[r].cells[i] == f.rows[r].cells[i + |f.ages| - |Shift(f).ages|]
  {
    var n := |f.ages|;
    var d := if n == Width then 1 else 0;
    KeptSkipsLeading(f.ages, d);
  }

  /** Filling a frame without a column `1m` appends that column. */
  lemma FillAppends(f: Frame, prices: seq<Cell>)
    requires Rectangular(f) && |prices| == |f.rows| && 1 !in f.ages
    ensures Fill(f, prices).ages == f.ages + [1]
    ensures forall r :: 0 <= r < |f.rows| ==> Fill(f, prices).rows[r].cells == f.rows[r].cells + [prices[r]]
  {
  }

  /** Shift-then-fill keeps the aligned layout, holds at most 720 ages, puts
      each row's new value at age 1, and moves every other kept sample from
      age k to age k + 1. */
  lemma SnapshotKeepsLayout(f: Frame, prices: seq<Cell>)
    requires Aligned(f) && |prices| == |f.rows|
    ensures Aligned(Fill(Shift(f), prices))
    ensures |Fill(Shift(f), prices).ages| == MinInt(|f.ages| + 1, Width)
    ensures forall r :: 0 <= r < |f.rows| ==> AgeCell(Fill(Shift(f), prices), r, 1) == prices[r]
    ensures forall r, k :: 0 <= r < |f.rows| && 1 <= k < MinInt(|f.ages| + 1, Width) ==>
              AgeCell(Fill(Shift(f), prices), r, k + 1) == AgeCell(f, r, k)
  {
    var s := Shift(f);
    ShiftAligned(f);
    FillAppends(s, prices);
    var g := Fill(s, prices);
    assert Aligned(g) by {
      forall j | 0 <= j < |g.ages|
        ensures g.ages[j] == |g.ages| - j
      {
        if j < |s.ages| {
          assert g.ages[j] == s.ages[j];
        }
      }
    }
    forall r | 0 <= r < |f.rows|
      ensures AgeCell(g, r, 1) == prices[r]
    {
      assert g.rows[r].cells == s.rows[r].cells + [prices[r]];
    }
    forall r, k | 0 <= r < |f.rows| && 1 <= k < MinInt(|f.ages| + 1, Width)
      ensures AgeCell(g, r, k + 1) == AgeCell(f, r, k)
    {
      var i := |s.ages| - k;
      assert g.rows[r].cells == s.rows[r].cells + [prices[r]];
      assert g.rows[r].cells[i] == s.rows[r].cells[i];
    }
  }
}
