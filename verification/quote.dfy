/**
 The last-trade price fetch with its bounded retry and the market-status read.

 Each attempt is one request to the quote endpoint of an ISIN, abstracted into
 the way the attempt ends. The fetch makes at most three attempts; a ValueError
 ends it at once with no price, a parsed price ends it with that price, and any
 other failure moves on to the next attempt. The trading-status element is read,
 and `market_open` assigned, before the price text is parsed.
 */
module QuoteSource {
  import opened Optional

  /** Number of attempts the retry loop makes at most. */
  const MaxAttempts: nat := 3

  /** Status text that means the market is open. */
  const ContinuousTrading: string := "CONTINUOUS TRADING"

  /** How one attempt ends. `status` is the text of the trading-status element
      when the page has one, `None` when it has none. */
  datatype Attempt =
      /** The response had status 200 and a price element; the status was
          assigned and the price parsed (in hundredths). */
    | Quoted(status: Option<string>, price: int)
      /** The response had status 200 and a price element; the status was
          assigned, then the price text raised ValueError. */
    | Unparsable(status: Option<string>)
      /** A ValueError raised before the status was read. */
    | EarlyValueError
      /** A connection error, a read timeout, a failed assertion (bad status
          code, no price element) or any other exception: retried. */
    | Retryable

  /** The answers the endpoint gives one ISIN: attempt k (from 0) ends as `t(k)`. */
  type Transport = nat -> Attempt

  /** Result of one fetch: the price (`None` is the fetch's None), the value the
      fetch assigned to `market_open` if it reached that assignment, and the
      number of attempts made. */
  datatype Fetched = Fetched(price: Option<int>, observed: Option<bool>, tries: nat)

  /** Whitespace as Python's `str.isspace` defines it. */
  predicate IsSpace(c: char) {
    var n := c as int;
    || 9 <= n <= 13 || 28 <= n <= 32 || n == 0x85 || n == 0xA0 || n == 0x1680
    || 0x2000 <= n <= 0x200A || n == 0x2028 || n == 0x2029 || n == 0x202F
    || n == 0x205F || n == 0x3000
  }

  /** Every character of `s` is whitespace. */
  predicate AllSpace(s: string) {
    forall k :: 0 <= k < |s| ==> IsSpace(s[k])
  }

  /** `s` without its leading whitespace. */
  function TrimLeft(s: string): (r: string)
    ensures |r| <= |s| && r == s[|s| - |r|..]
    ensures AllSpace(s[..|s| - |r|])
    ensures |r| > 0 ==> !IsSpace(r[0])
  {
    if |s| > 0 && IsSpace(s[0]) then TrimLeft(s[1..]) else s
  }

  /** `s` without its trailing whitespace. */
  function TrimRight(s: string): (r: string)
    ensures |r| <= |s| && r == s[..|r|]
    ensures AllSpace(s[|r|..])
    ensures |r| > 0 ==> !IsSpace(r[|r| - 1])
  {
    if |s| > 0 && IsSpace(s[|s| - 1]) then TrimRight(s[..|s| - 1]) else s
  }

  /** Python's `str.strip()`: `s` with the whitespace at both ends removed and
      nothing else. */
  function Strip(s: string): (r: string)
    ensures exists i :: 0 <= i <= |s| - |r| && r == s[i..i + |r|] && AllSpace(s[..i]) && AllSpace(s[i + |r|..])
    ensures |r| > 0 ==> !IsSpace(r[0]) && !IsSpace(r[|r| - 1])
  {
    var left := TrimLeft(s);
    var r := TrimRight(left);
    var i := |s| - |left|;
    assert r == s[i..i + |r|];
    assert s[i + |r|..] == left[|r|..];
    assert AllSpace(s[..i]) && AllSpace(s[i + |r|..]);
    r
  }

  /** Whether the status element exists and its stripped text is `CONTINUOUS TRADING`. */
  predicate IsContinuousTrading(status: Option<string>) {
    status.Some? && Strip(status.value) == ContinuousTrading
  }

  /** The value an attempt assigns to `market_open`, if it gets that far. */
  function Observed(a: Attempt): (r: Option<bool>)
    ensures r.Some? <==> a.Quoted? || a.Unparsable?
    ensures r.Some? ==> (r.value <==> IsContinuousTrading(a.status))
  {
    match a
    case Quoted(status, _) => Some(IsContinuousTrading(status))
    case Unparsable(status) => Some(IsContinuousTrading(status))
    case _ => None
  }

  /** The price an attempt returns: only a parsed quote has one. */
  function PriceOf(a: Attempt): Option<int> {
    if a.Quoted? then Some(a.price) else None
  }

  /** `market_open` after a fetch that observed `observed`, starting from `open`. */
  function MarketAfter(open: bool, observed: Option<bool>): bool {
    observed.GetOr(open)
  }

  /** The retry loop over the outcomes of successive attempts: it stops at the
      first attempt that is not retryable, or when the outcomes run out. */
  function Retry(s: seq<Attempt>): (r: Fetched)
    ensures r.tries <= |s|
    ensures |s| == 0 ==> r == Fetched(None, None, 0)
    ensures |s| > 0 ==> 1 <= r.tries
    ensures forall j :: 0 <= j < r.tries - 1 ==> s[j].Retryable?
    ensures r.tries < |s| ==> !s[r.tries - 1].Retryable?
    ensures |s| > 0 ==> r.price == PriceOf(s[r.tries - 1]) && r.observed == Observed(s[r.tries - 1])
    decreases |s|
  {
    if |s| == 0 then Fetched(None, None, 0)
    else if s[0].Retryable? then
      var r := Retry(s[1..]);
      r.(tries := r.tries + 1)
    else Fetched(PriceOf(s[0]), Observed(s[0]), 1)
  }

  /** `get_last_trade_price`: the retry loop over the first three answers of the endpoint. */
  function GetLastTradePrice(t: Transport): (r: Fetched)
    ensures 1 <= r.tries <= MaxAttempts
    ensures forall j :: 0 <= j < r.tries - 1 ==> t(j).Retryable?
    ensures r.tries < MaxAttempts ==> !t(r.tries - 1).Retryable?
    ensures r.price == PriceOf(t(r.tries - 1))
    ensures r.observed == Observed(t(r.tries - 1))
  {
    var s := seq(MaxAttempts, (k: int) requires 0 <= k => t(k));
    var r := Retry(s);
    assert forall j :: 0 <= j < MaxAttempts ==> s[j] == t(j);
    r
  }

  /** The fetch returns price p exactly when some attempt parses p after only
      retryable failures. */
  lemma FetchSucceedsIff(t: Transport, p: int)
    ensures GetLastTradePrice(t).price == Some(p) <==>
              exists k :: 0 <= k < MaxAttempts && t(k).Quoted? && t(k).price == p &&
                forall j :: 0 <= j < k ==> t(j).Retryable?
  {
    var r := GetLastTradePrice(t);
    if exists k :: 0 <= k < MaxAttempts && t(k).Quoted? && t(k).price == p &&
         forall j :: 0 <= j < k ==> t(j).Retryable? {
      var k :| 0 <= k < MaxAttempts && t(k).Quoted? && t(k).price == p &&
         forall j :: 0 <= j < k ==> t(j).Retryable?;
      assert r.tries - 1 == k;
    }
  }

  /** A ValueError ends the fetch at once, with no price and no further attempt. */
  lemma ValueErrorStops(t: Transport, k: nat)
    requires k < MaxAttempts
    requires forall j :: 0 <= j < k ==> t(j).Retryable?
    requires t(k).Unparsable? || t(k).EarlyValueError?
    ensures GetLastTradePrice(t).price == None
    ensures GetLastTradePrice(t).tries == k + 1
  {
    var r := GetLastTradePrice(t);
    assert r.tries - 1 == k;
  }

  /** Three retryable failures use up the attempts: no price, status untouched. */
  lemma ExhaustedYieldsNone(t: Transport)
    requires forall k :: 0 <= k < MaxAttempts ==> t(k).Retryable?
    ensures GetLastTradePrice(t) == Fetched(None, None, MaxAttempts)
  {
  }

  /** `market_open` after a fetch: the status of the attempt that ended it when
      that attempt reached the status assignment (a response with status 200
      and a price element), and the previous value otherwise. */
  lemma MarketOpenAfterFetch(t: Transport, open: bool)
    ensures var r := GetLastTradePrice(t);
            var last := t(r.tries - 1);
            MarketAfter(open, r.observed) ==
              if last.Quoted? || last.Unparsable? then IsContinuousTrading(last.status) else open
  {
  }

  /** Trimming on the left removes whitespace padding before a text that does
      not start with whitespace, and nothing more. */
  lemma {:induction false} TrimLeftPadding(p: string, y: string)
    requires AllSpace(p)
    requires |y| > 0 && !IsSpace(y[0])
    ensures TrimLeft(p + y) == y
    decreases |p|
  {
    if |p| > 0 {
      assert (p + y)[1..] == p[1..] + y;
      TrimLeftPadding(p[1..], y);
    } else {
      assert p + y == y;
    }
  }

  /** Trimming on the right removes whitespace padding after a text that does
      not end with whitespace, and nothing more. */
  lemma {:induction false} TrimRightPadding(y: string, q: string)
    requires AllSpace(q)
    requires |y| > 0 && !IsSpace(y[|y| - 1])
    ensures TrimRight(y + q) == y
    decreases |q|
  {
    if |q| > 0 {
      assert (y + q)[..|y + q| - 1] == y + q[..|q| - 1];
      TrimRightPadding(y, q[..|q| - 1]);
    } else {
      assert y + q == y;
    }
  }

  /** Stripping ignores whitespace padding on both sides of a text. */
  lemma StripPadding(p: string, x: string, q: string)
    requires AllSpace(p) && AllSpace(q)
    requires |x| > 0 && !IsSpace(x[0]) && !IsSpace(x[|x| - 1])
    ensures Strip(p + x + q) == x
  {
    assert p + x + q == p + (x + q);
    TrimLeftPadding(p, x + q);
    TrimRightPadding(x, q);
  }

  /** The status is read before the price is parsed: a padded
      `CONTINUOUS TRADING` followed by an unparsable price opens the market
      although the fetch returns no price. */
  lemma StatusAssignedBeforeParse(t: Transport, text: string)
    requires text == " " + ContinuousTrading + "\n"
    requires t(0) == Unparsable(Some(text))
    ensures GetLastTradePrice(t).price == None
    ensures GetLastTradePrice(t).tries == 1
    ensures MarketAfter(false, GetLastTradePrice(t).observed)
  {
    StripPadding(" ", ContinuousTrading, "\n");
  }

  /** A page with no status element closes the market even when it has a price. */
  lemma MissingStatusCloses(t: Transport, p: int)
    requires t(0) == Quoted(None, p)
    ensures GetLastTradePrice(t).price == Some(p)
    ensures !MarketAfter(true, GetLastTradePrice(t).observed)
  {
  }
}
