/**
 The snapshot cycle and the scheduler that drives it.

 One scheduler step is one pass of the endless loop: when the market is open
 (or opening is forced) it takes a snapshot, aggregates it, and sleeps what is
 left of the 60-second period; otherwise it sleeps ten minutes and re-probes
 the market status with one fetch, leaving the window alone. Time is counted in
 hundredths of a second.
 */
module Scheduler {
  import opened Optional
  import opened PriceWindow
  import opened QuoteSource
  import opened Aggregator

  /** Target length of an active cycle: 60 s. */
  const TargetPeriod: int := 6000

  /** Sleep of an idle step: 10 min. */
  const IdlePeriod: int := 60000

  /** The endpoint's answers for every ISIN during one step. */
  type Quotes = string -> Transport

  /** The scheduler's state: the window, the aggregated series, `market_open`
      and the number of snapshots taken. */
  datatype State = State(frame: Frame, series: seq<Record>, marketOpen: bool, count: nat)

  /** What the outside world supplies to one step: the endpoint's answers, the
      time the active cycle took, and the UTC timestamp of its aggregate. */
  datatype Env = Env(quotes: Quotes, elapsed: int, now: string)

  /** A step's result: the next state, how long it sleeps, and the snapshot it
      writes, if any. */
  datatype Tick = Tick(next: State, sleep: int, written: Option<Snapshot>)

  /** The fetch of one row's own ISIN. */
  function FetchRow(quotes: Quotes, row: Row): Fetched {
    GetLastTradePrice(quotes(row.isin))
  }

  /** Last-write-wins over the status assignments of successive fetches:
      the last observation made, or `None` when no fetch made one. */
  function LastObserved(obs: seq<Option<bool>>): (r: Option<bool>)
    ensures r.None? <==> forall i :: 0 <= i < |obs| ==> obs[i].None?
    ensures forall i :: 0 <= i < |obs| && obs[i].Some? && (forall j :: i < j < |obs| ==> obs[j].None?) ==>
              r == obs[i]
    decreases |obs|
  {
    if |obs| == 0 then None
    else if obs[|obs| - 1].Some? then obs[|obs| - 1]
    else
      var init := obs[..|obs| - 1];
      var r := LastObserved(init);
      assert forall i :: 0 <= i < |init| ==> init[i] == obs[i];
      r
  }

  /** Fetch every row in row order: each row's price comes from its own ISIN,
      and the status observed by the last fetch that observed one wins. */
  function FetchAll(rows: seq<Row>, quotes: Quotes): (r: (seq<Cell>, Option<bool>))
    ensures |r.0| == |rows|
    ensures forall i :: 0 <= i < |rows| ==> r.0[i] == FetchRow(quotes, rows[i]).price
    ensures r.1.None? <==> forall i :: 0 <= i < |rows| ==> FetchRow(quotes, rows[i]).observed.None?
    ensures forall i ::
              (&& 0 <= i < |rows|
               && FetchRow(quotes, rows[i]).observed.Some?
               && forall j :: i < j < |rows| ==> FetchRow(quotes, rows[j]).observed.None?)
              ==> r.1 == FetchRow(quotes, rows[i]).observed
  {
    var obs := seq(|rows|, i requires 0 <= i < |rows| => FetchRow(quotes, rows[i]).observed);
    var seen := LastObserved(obs);
    assert forall i :: 0 <= i < |rows| ==> obs[i] == FetchRow(quotes, rows[i]).observed;
    (seq(|rows|, i requires 0 <= i < |rows| => FetchRow(quotes, rows[i]).price), seen)
  }

  /** `get_snapshot`: shift the window, fetch every ISIN, and write the prices
      into the column `1m`; also returns the status the fetches observed. */
  function GetSnapshot(f: Frame, quotes: Quotes): (r: (Frame, Option<bool>))
    requires Rectangular(f)
    ensures Rectangular(r.0)
    ensures |r.0.rows| == |f.rows|
    ensures forall i :: 0 <= i < |f.rows| ==>
              r.0.rows[i].component == f.rows[i].component && r.0.rows[i].isin == f.rows[i].isin
    ensures r.0.ages == Shift(f).ages + [1]
    ensures forall i :: 0 <= i < |f.rows| ==>
              r.0.rows[i].cells == Shift(f).rows[i].cells + [FetchRow(quotes, f.rows[i]).price]
    ensures r.1.None? <==> forall i :: 0 <= i < |f.rows| ==> FetchRow(quotes, f.rows[i]).observed.None?
    ensures forall i ::
              (&& 0 <= i < |f.rows|
               && FetchRow(quotes, f.rows[i]).observed.Some?
               && forall j :: i < j < |f.rows| ==> FetchRow(quotes, f.rows[j]).observed.None?)
              ==> r.1 == FetchRow(quotes, f.rows[i]).observed
  {
    var shifted := Shift(f);
    var (prices, seen) := FetchAll(shifted.rows, quotes);
    assert forall i :: 0 <= i < |f.rows| ==> FetchRow(quotes, shifted.rows[i]) == FetchRow(quotes, f.rows[i]);
    FillAppends(shifted, prices);
    (Fill(shifted, prices), seen)
  }

  /** Sleep after an active cycle that took `elapsed`: `max(60 - elapsed, 0)`. */
  function ActiveSleep(elapsed: int): (r: int)
    ensures r >= 0
    ensures elapsed + r >= TargetPeriod
    ensures r > 0 ==> elapsed + r == TargetPeriod
    ensures elapsed >= 0 ==> r <= TargetPeriod
  {
    if TargetPeriod - elapsed > 0 then TargetPeriod - elapsed else 0
  }

  /** The constructor and the opening probe: `market_open` starts true and is
      then set by one fetch of the first row's ISIN. */
  function Start(frame: Frame, series: seq<Record>, quotes: Quotes): (s: State)
    requires |frame.rows| > 0
    ensures s.frame == frame && s.series == series && s.count == 0
    ensures var t := quotes(frame.rows[0].isin);
            var last := t(FetchRow(quotes, frame.rows[0]).tries - 1);
            s.marketOpen <==> !(last.Quoted? || last.Unparsable?) || IsContinuousTrading(last.status)
  {
    MarketOpenAfterFetch(quotes(frame.rows[0].isin), true);
    State(frame, series, MarketAfter(true, FetchRow(quotes, frame.rows[0]).observed), 0)
  }

  /** When every attempt of the opening probe fails, `market_open` keeps its
      initial true and the first pass takes a snapshot. */
  lemma FailedProbeStartsActive(frame: Frame, series: seq<Record>, quotes: Quotes)
    requires |frame.rows| > 0
    requires forall k :: 0 <= k < MaxAttempts ==> quotes(frame.rows[0].isin)(k).Retryable?
    ensures Active(Start(frame, series, quotes), false)
  {
    ExhaustedYieldsNone(quotes(frame.rows[0].isin));
  }

  /** Whether a step takes the active branch. */
  predicate Active(s: State, force: bool) {
    s.marketOpen || force
  }

  /** One pass of the scheduler loop. */
  function SchedulerStep(s: State, force: bool, env: Env): (t: Tick)
    requires Rectangular(s.frame)
    requires Active(s, force) || |s.frame.rows| > 0
    ensures Rectangular(t.next.frame)
    ensures |t.next.frame.rows| == |s.frame.rows|
    ensures forall i :: 0 <= i < |s.frame.rows| ==> t.next.frame.rows[i].isin == s.frame.rows[i].isin
    ensures t.written.Some? <==> Active(s, force)
    ensures t.sleep >= 0
    ensures !Active(s, force) ==>
              && t.next.frame == s.frame
              && t.next.series == s.series
              && t.next.count == s.count
              && t.sleep == IdlePeriod
              && t.next.marketOpen == MarketAfter(s.marketOpen, FetchRow(env.quotes, s.frame.rows[0]).observed)
    ensures Active(s, force) ==>
              && t.next.count == s.count + 1
              && |t.next.series| == |s.series| + 1
              && t.next.series[..|s.series|] == s.series
              && t.written.value.frame == t.next.frame
              && t.next.series[|s.series|] == Record(env.now, t.written.value.total)
              && t.sleep == ActiveSleep(env.elapsed)
  {
    if Active(s, force) then
      var (frame, seen) := GetSnapshot(s.frame, env.quotes);
      var (snapshot, series) := AggregatedTrend(frame, s.series, env.now);
      Tick(State(frame, series, MarketAfter(s.marketOpen, seen), s.count + 1),
           ActiveSleep(env.elapsed), Some(snapshot))
    else
      var probe := FetchRow(env.quotes, s.frame.rows[0]);
      Tick(s.(marketOpen := MarketAfter(s.marketOpen, probe.observed)), IdlePeriod, None)
  }

  /** The state after running the loop through the given steps. */
  function Run(s: State, force: bool, envs: seq<Env>): (r: State)
    requires Rectangular(s.frame) && |s.frame.rows| > 0
    ensures Rectangular(r.frame) && |r.frame.rows| == |s.frame.rows|
    ensures forall i :: 0 <= i < |s.frame.rows| ==> r.frame.rows[i].isin == s.frame.rows[i].isin
    ensures s.count <= r.count <= s.count + |envs|
    decreases |envs|
  {
    if |envs| == 0 then s
    else
      var next := SchedulerStep(s, force, envs[0]).next;
      var r := Run(next, force, envs[1..]);
      assert forall i :: 0 <= i < |s.frame.rows| ==> next.frame.rows[i].isin == s.frame.rows[i].isin;
      assert forall i :: 0 <= i < |s.frame.rows| ==> r.frame.rows[i].isin == next.frame.rows[i].isin;
      r
  }

  /** One step keeps the aligned layout. */
  lemma StepKeepsAligned(s: State, force: bool, env: Env)
    requires Aligned(s.frame) && |s.frame.rows| > 0
    ensures Aligned(SchedulerStep(s, force, env).next.frame)
  {
    if Active(s, force) {
      var shifted := Shift(s.frame);
      var (prices, seen) := FetchAll(shifted.rows, env.quotes);
      SnapshotKeepsLayout(s.frame, prices);
    }
  }

  /** One step adds a record exactly when it takes a snapshot. */
  lemma StepExtendsSeries(s: State, force: bool, env: Env)
    requires Rectangular(s.frame) && |s.frame.rows| > 0
    ensures var next := SchedulerStep(s, force, env).next;
            && next.count >= s.count
            && |next.series| == |s.series| + (next.count - s.count)
            && next.series[..|s.series|] == s.series
  {
  }

  /** A prefix of a prefix of `a` is a prefix of `a`. */
  lemma PrefixOfPrefix<T>(a: seq<T>, b: seq<T>, c: seq<T>)
    requires |c| <= |b| <= |a| && a[..|b|] == b && b[..|c|] == c
    ensures a[..|c|] == c
  {
    assert a[..|b|][..|c|] == a[..|c|];
  }

  /** `last` holds the window of `s` aged by the snapshots taken in between:
      aligned, with one more age per snapshot until it is full at 720. */
  predicate GrownFrom(s: State, last: State) {
    && Aligned(last.frame)
    && last.count >= s.count
    && |last.frame.ages| == MinInt(|s.frame.ages| + (last.count - s.count), Width)
  }

  /** Growing a window twice is growing it once by the total. */
  lemma GrownTwice(s: State, next: State, last: State)
    requires Aligned(s.frame) && GrownFrom(s, next) && GrownFrom(next, last)
    ensures GrownFrom(s, last)
  {
  }

  /** One step adds an age exactly when it takes a snapshot, up to 720. */
  lemma StepGrowsWindow(s: State, force: bool, env: Env)
    requires Aligned(s.frame) && |s.frame.rows| > 0
    ensures GrownFrom(s, SchedulerStep(s, force, env).next)
  {
    StepKeepsAligned(s, force, env);
    if Active(s, force) {
      ActiveStepAgesWindow(s, force, env);
    }
  }

  /** Whatever the endpoint answers and however many steps run, the window
      keeps its aligned layout, and it holds one more age per snapshot taken
      until it is full at 720. */
  lemma {:induction false} RunKeepsWindow(s: State, force: bool, envs: seq<Env>)
    requires Aligned(s.frame) && |s.frame.rows| > 0
    ensures GrownFrom(s, Run(s, force, envs))
    decreases |envs|
  {
    if |envs| > 0 {
      var next := FirstStep(s, force, envs);
      RunKeepsWindow(next, force, envs[1..]);
      GrownTwice(s, next, Run(next, force, envs[1..]));
    }
  }

  /** A non-empty run is its first step, which grows the window, followed by the rest. */
  lemma FirstStep(s: State, force: bool, envs: seq<Env>) returns (next: State)
    requires Aligned(s.frame) && |s.frame.rows| > 0 && |envs| > 0
    ensures next == SchedulerStep(s, force, envs[0]).next
    ensures |next.frame.rows| > 0 && GrownFrom(s, next)
    ensures Run(s, force, envs) == Run(next, force, envs[1..])
  {
    next := SchedulerStep(s, force, envs[0]).next;
    StepGrowsWindow(s, force, envs[0]);
  }

  /** Over any run the series grows by exactly one record per snapshot taken
      and its earlier records never change. */
  lemma {:induction false} RunExtendsSeries(s: State, force: bool, envs: seq<Env>)
    requires Rectangular(s.frame) && |s.frame.rows| > 0
    ensures Run(s, force, envs).count >= s.count
    ensures |Run(s, force, envs).series| == |s.series| + (Run(s, force, envs).count - s.count)
    ensures Run(s, force, envs).series[..|s.series|] == s.series
    decreases |envs|
  {
    if |envs| > 0 {
      var next := SchedulerStep(s, force, envs[0]).next;
      StepExtendsSeries(s, force, envs[0]);
      RunExtendsSeries(next, force, envs[1..]);
      var last := Run(next, force, envs[1..]);
      assert last == Run(s, force, envs);
      PrefixOfPrefix(last.series, next.series, s.series);
    }
  }

  /** An active step ages every sample by one minute and puts each row's own
      fetched price at age 1. */
  lemma ActiveStepAgesWindow(s: State, force: bool, env: Env)
    requires Aligned(s.frame) && Active(s, force)
    ensures var g := SchedulerStep(s, force, env).next.frame;
            && Aligned(g)
            && |g.ages| == MinInt(|s.frame.ages| + 1, Width)
            && (forall r :: 0 <= r < |s.frame.rows| ==>
                  AgeCell(g, r, 1) == FetchRow(env.quotes, s.frame.rows[r]).price)
            && (forall r, k :: 0 <= r < |s.frame.rows| && 1 <= k < MinInt(|s.frame.ages| + 1, Width) ==>
                  AgeCell(g, r, k + 1) == AgeCell(s.frame, r, k))
  {
    var shifted := Shift(s.frame);
    var (prices, seen) := FetchAll(shifted.rows, env.quotes);
    SnapshotKeepsLayout(s.frame, prices);
    assert forall r :: 0 <= r < |s.frame.rows| ==> shifted.rows[r].isin == s.frame.rows[r].isin;
  }

  /** An active pass is `get_snapshot` followed by `aggregated_trend` of the
      new frame; `market_open` is left as the snapshot's fetches set it. */
  lemma ActiveStepTakesSnapshot(s: State, force: bool, env: Env)
    requires Rectangular(s.frame) && Active(s, force)
    ensures var t := SchedulerStep(s, force, env);
            var snap := GetSnapshot(s.frame, env.quotes);
            && t.next.frame == snap.0
            && t.next.marketOpen == MarketAfter(s.marketOpen, snap.1)
            && t.written == Some(AggregatedTrend(snap.0, s.series, env.now).0)
            && t.next.series == AggregatedTrend(snap.0, s.series, env.now).1
  {
  }

  /** How an active pass leaves `market_open`: the status of the last row
      whose fetch reached the status assignment, or its previous value when no
      fetch did. A snapshot is written either way. */
  lemma ActiveStepMarketStatus(s: State, force: bool, env: Env)
    requires Rectangular(s.frame) && Active(s, force)
    ensures SchedulerStep(s, force, env).written.Some?
    ensures (forall i :: 0 <= i < |s.frame.rows| ==> FetchRow(env.quotes, s.frame.rows[i]).observed.None?) ==>
              SchedulerStep(s, force, env).next.marketOpen == s.marketOpen
    ensures forall i ::
              (&& 0 <= i < |s.frame.rows|
               && FetchRow(env.quotes, s.frame.rows[i]).observed.Some?
               && forall j :: i < j < |s.frame.rows| ==> FetchRow(env.quotes, s.frame.rows[j]).observed.None?)
              ==> SchedulerStep(s, force, env).next.marketOpen == FetchRow(env.quotes, s.frame.rows[i]).observed.value
  {
  }

  /** A closed status seen by the last fetch that read one still lets this
      pass write its snapshot, and makes the next unforced pass idle. */
  lemma ClosedStatusGoesIdle(s: State, env: Env, i: int)
    requires Rectangular(s.frame) && s.marketOpen
    requires 0 <= i < |s.frame.rows| && FetchRow(env.quotes, s.frame.rows[i]).observed == Some(false)
    requires forall j :: i < j < |s.frame.rows| ==> FetchRow(env.quotes, s.frame.rows[j]).observed.None?
    ensures SchedulerStep(s, false, env).written.Some?
    ensures !Active(SchedulerStep(s, false, env).next, false)
  {
    ActiveStepMarketStatus(s, false, env);
  }

  /** The first snapshot taken from the frame read from the index file, which
      has no age columns, holds exactly the column `1m` with each row's own
      fetched price. */
  lemma FirstSnapshot(rows: seq<Row>, series: seq<Record>, quotes: Quotes, force: bool, env: Env)
    requires |rows| > 0
    requires forall i :: 0 <= i < |rows| ==> rows[i].cells == []
    requires Active(Start(Frame([], rows), series, quotes), force)
    ensures var g := SchedulerStep(Start(Frame([], rows), series, quotes), force, env).next.frame;
            && g.ages == [1]
            && forall i :: 0 <= i < |rows| ==> g.rows[i].cells == [FetchRow(env.quotes, rows[i]).price]
  {
    var s := Start(Frame([], rows), series, quotes);
    ActiveStepAgesWindow(s, force, env);
    var g := SchedulerStep(s, force, env).next.frame;
    assert g.ages[0] == 1;
    forall i | 0 <= i < |rows|
      ensures g.rows[i].cells == [FetchRow(env.quotes, rows[i]).price]
    {
      assert AgeCell(g, i, 1) == g.rows[i].cells[0];
    }
  }
}
