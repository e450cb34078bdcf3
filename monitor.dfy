/**
 * One run of the `price_check` task: read the item list, fetch each item's
 * quote in list order, skip items without data, and raise an alert for each
 * item whose lowest price is at most a tenth of the next price. The market
 * is a function from item name to the response the API gives during this
 * tick; the alerts handed to `send_discord_alert` are the tick's output.
 */
module Monitor {
  import opened ItemCodec
  import opened Market

  /**
   * The threshold test `lowest_price <= next_price * 0.1`, in integers: it
   * agrees with the comparison in exact arithmetic.
   */
  function IsDeal(lowest: int, next: int): (alert: bool)
    ensures alert <==> (lowest as real) <= (next as real) * 0.1
  {
    10 * lowest <= next
  }

  /** The arguments of `send_discord_alert(item_name, next_price, lowest_price)`. */
  datatype Alert = Alert(item: string, next: int, lowest: int)

  /**
   * The alerts a tick sent, and whether it ended early because an exception
   * escaped (the items after that one are not visited).
   */
  datatype TickResult = TickResult(alerts: seq<Alert>, aborted: bool)

  /** The alert, if any, that one item's quote raises: at most one, exactly for a deal. */
  function AlertFor(name: string, q: Quote): (alerts: seq<Alert>)
    ensures |alerts| <= 1
    ensures alerts != [] <==> q.Prices? && IsDeal(q.lowest, q.next)
    ensures alerts != [] ==> alerts[0] == Alert(name, q.next, q.lowest)
  {
    if q.Prices? && IsDeal(q.lowest, q.next) then [Alert(name, q.next, q.lowest)] else []
  }

  /**
   * An exception leaves `price_check` at this quote: the `IndexError` of a
   * single listing, or the `ZeroDivisionError` that `send_discord_alert`
   * raises when it computes the discount of a deal whose next price is 0,
   * before any message is sent. The alert channel is taken to resolve, so
   * the division is reached.
   */
  predicate Raises(q: Quote) {
    q.ListingIndexError? || (q.Prices? && IsDeal(q.lowest, q.next) && q.next == 0)
  }

  /** The quote `fetch_market_data` gives for each name during one tick. */
  function QuotesOf(market: string -> Response): string -> Quote {
    name => QuoteOf(market(name))
  }

  /**
   * Reference for a tick that meets no exception: one alert per item whose
   * quote meets the threshold, in registry order.
   */
  function Deals(items: seq<string>, quotes: string -> Quote): (alerts: seq<Alert>)
    ensures |alerts| <= |items|
  {
    if items == [] then []
    else AlertFor(items[0], quotes(items[0])) + Deals(items[1..], quotes)
  }

  /**
   * What `price_check` does with `items`, stated item by item from the last
   * one: once aborted the tick stays aborted; an exception aborts it; no
   * data skips the item; otherwise the threshold decides.
   */
  function Tick(items: seq<string>, quotes: string -> Quote): (tick: TickResult)
    ensures |tick.alerts| <= |items|
  {
    if items == [] then TickResult([], false)
    else
      var before := Tick(items[..|items| - 1], quotes);
      var last := items[|items| - 1];
      if before.aborted then before
      else if Raises(quotes(last)) then TickResult(before.alerts, true)
      else TickResult(before.alerts + AlertFor(last, quotes(last)), false)
  }

  /** No item's quote raises an exception. */
  predicate NoException(items: seq<string>, quotes: string -> Quote) {
    forall k :: 0 <= k < |items| ==> !Raises(quotes(items[k]))
  }

  /** `price_check`: one sweep over the stored item list. */
  method PriceCheck(env: map<string, string>, market: string -> Response) returns (tick: TickResult)
    ensures tick == Tick(GetItems(env), QuotesOf(market))
    ensures NoException(GetItems(env), QuotesOf(market)) ==>
              tick == TickResult(Deals(GetItems(env), QuotesOf(market)), false)
  {
    var items := GetItems(env);
    ghost var quotes := QuotesOf(market);
    var alerts: seq<Alert> := [];
    for i := 0 to |items|
      invariant Tick(items[..i], quotes) == TickResult(alerts, false)
    {
      var name := items[i];
      var q := FetchMarketData(market(name));
      assert q == quotes(name);
      TickStep(items, i, quotes);
      if q.ListingIndexError? {
        AbortedTickStays(items, i + 1, quotes);
        return TickResult(alerts, true);
      }
      if q.NoData? {
        continue;
      }
      if IsDeal(q.lowest, q.next) {
        if q.next == 0 {
          AbortedTickStays(items, i + 1, quotes);
          return TickResult(alerts, true);
        }
        alerts := alerts + [Alert(name, q.next, q.lowest)];
      }
    }
    assert items[..|items|] == items;
    tick := TickResult(alerts, false);
    if NoException(items, quotes) {
      TickWithoutException(items, quotes);
    }
  }

  /** One more item: `Tick` of a prefix one longer. */
  lemma TickStep(items: seq<string>, i: nat, quotes: string -> Quote)
    requires i < |items|
    ensures Tick(items[..i + 1], quotes)
            == if Tick(items[..i], quotes).aborted then Tick(items[..i], quotes)
               else if Raises(quotes(items[i])) then TickResult(Tick(items[..i], quotes).alerts, true)
               else TickResult(Tick(items[..i], quotes).alerts + AlertFor(items[i], quotes(items[i])), false)
  {
    assert items[..i + 1][..i] == items[..i];
  }

  /** The reference alerts of a longer list extend those of its prefix. */
  lemma {:induction false} DealsAppend(items: seq<string>, name: string, quotes: string -> Quote)
    ensures Deals(items + [name], quotes) == Deals(items, quotes) + AlertFor(name, quotes(name))
    decreases |items|
  {
    if items == [] {
      assert [name][1..] == [];
    } else {
      assert (items + [name])[1..] == items[1..] + [name];
      DealsAppend(items[1..], name, quotes);
    }
  }

  /**
   * A tick that meets no exception is never aborted and sends exactly the
   * reference alerts: items without data are skipped and the sweep goes on.
   */
  lemma {:induction false} TickWithoutException(items: seq<string>, quotes: string -> Quote)
    requires NoException(items, quotes)
    ensures Tick(items, quotes) == TickResult(Deals(items, quotes), false)
    decreases |items|
  {
    if items != [] {
      var init := items[..|items| - 1];
      var last := items[|items| - 1];
      assert NoException(init, quotes) by {
        forall k | 0 <= k < |init| ensures !Raises(quotes(init[k])) {
          assert init[k] == items[k];
        }
      }
      TickWithoutException(init, quotes);
      DealsAppend(init, last, quotes);
      assert init + [last] == items;
    }
  }

  /** An aborted prefix decides the whole tick. */
  lemma {:induction false} AbortedTickStays(items: seq<string>, n: nat, quotes: string -> Quote)
    requires n <= |items|
    requires Tick(items[..n], quotes).aborted
    ensures Tick(items, quotes) == Tick(items[..n], quotes)
    decreases |items| - n
  {
    if n < |items| {
      var init := items[..|items| - 1];
      assert init[..n] == items[..n];
      AbortedTickStays(init, n, quotes);
    } else {
      assert items[..n] == items;
    }
  }

  /**
   * The first item whose quote raises an exception ends the tick: the alerts
   * sent are the reference alerts of the items before it, and the items after
   * it are not visited.
   */
  lemma TickStopsAtException(items: seq<string>, k: nat, quotes: string -> Quote)
    requires k < |items|
    requires Raises(quotes(items[k]))
    requires NoException(items[..k], quotes)
    ensures Tick(items, quotes) == TickResult(Deals(items[..k], quotes), true)
  {
    TickWithoutException(items[..k], quotes);
    assert items[..k + 1][..k] == items[..k];
    AbortedTickStays(items, k + 1, quotes);
  }

  /**
   * Every reference alert names a listed item whose quote is the alert's
   * pair of prices and meets the threshold.
   */
  lemma {:induction false} DealsSound(items: seq<string>, quotes: string -> Quote, k: nat)
    requires k < |Deals(items, quotes)|
    ensures Deals(items, quotes)[k].item in items
    ensures quotes(Deals(items, quotes)[k].item)
            == Prices(Deals(items, quotes)[k].lowest, Deals(items, quotes)[k].next)
    ensures IsDeal(Deals(items, quotes)[k].lowest, Deals(items, quotes)[k].next)
    decreases |items|
  {
    var head := AlertFor(items[0], quotes(items[0]));
    var tail := Deals(items[1..], quotes);
    assert Deals(items, quotes) == head + tail;
    if k < |head| {
      assert Deals(items, quotes)[k] == head[0];
    } else {
      assert Deals(items, quotes)[k] == tail[k - |head|];
      DealsSound(items[1..], quotes, k - |head|);
    }
  }

  /**
   * Every alert a tick sends, aborted or not, names a listed item whose quote
   * is the alert's pair of prices and meets the threshold, with a next price
   * other than 0: no alert that was sent divided by zero.
   */
  lemma {:induction false} TickAlertsSound(items: seq<string>, quotes: string -> Quote, k: nat)
    requires k < |Tick(items, quotes).alerts|
    ensures Tick(items, quotes).alerts[k].item in items
    ensures quotes(Tick(items, quotes).alerts[k].item)
            == Prices(Tick(items, quotes).alerts[k].lowest, Tick(items, quotes).alerts[k].next)
    ensures IsDeal(Tick(items, quotes).alerts[k].lowest, Tick(items, quotes).alerts[k].next)
    ensures Tick(items, quotes).alerts[k].next != 0
    decreases |items|
  {
    var init := items[..|items| - 1];
    var last := items[|items| - 1];
    var before := Tick(init, quotes);
    var alerts := Tick(items, quotes).alerts;
    if before.aborted || Raises(quotes(last)) || k < |before.alerts| {
      assert alerts[k] == before.alerts[k];
      TickAlertsSound(init, quotes, k);
      assert alerts[k].item in items by {
        var j :| 0 <= j < |init| && init[j] == alerts[k].item;
        assert items[j] == init[j];
      }
    } else {
      assert alerts == before.alerts + AlertFor(last, quotes(last));
      assert alerts[k] == AlertFor(last, quotes(last))[0];
    }
  }

  /** Every item whose quote meets the threshold gets its alert. */
  lemma {:induction false} DealsComplete(items: seq<string>, quotes: string -> Quote, k: nat)
    requires k < |items|
    requires quotes(items[k]).Prices?
    requires IsDeal(quotes(items[k]).lowest, quotes(items[k]).next)
    ensures Alert(items[k], quotes(items[k]).next, quotes(items[k]).lowest) in Deals(items, quotes)
    decreases k
  {
    var head := AlertFor(items[0], quotes(items[0]));
    var tail := Deals(items[1..], quotes);
    assert Deals(items, quotes) == head + tail;
    if k > 0 {
      assert items[1..][k - 1] == items[k];
      DealsComplete(items[1..], quotes, k - 1);
    }
  }

  /** Threshold boundary: a tenth of 1000 alerts, one more does not. */
  lemma ThresholdBoundary()
    ensures IsDeal(100, 1000)
    ensures !IsDeal(101, 1000)
  {
  }

  /**
   * Tied cheapest listings: prices 50, 30, 80 and 30, in any order, give
   * lowest 30 and next 30, and no alert.
   */
  lemma TiedCheapestListings(prices: seq<int>)
    requires multiset(prices) == multiset{50, 30, 80, 30}
    ensures QuoteOf(Http(200, prices)) == Prices(30, 30)
    ensures !IsDeal(30, 30)
  {
    TiedCheapestListingsBag();
    assert |prices| == |multiset(prices)|;
    var q := QuoteOf(Http(200, prices));
    TwoLowestUnique(multiset(prices), 30, 30, q.lowest, q.next);
  }

  lemma TiedCheapestListingsBag()
    ensures IsTwoLowest(multiset{50, 30, 80, 30}, 30, 30)
  {
    assert multiset{50, 30, 80, 30} - multiset{30} == multiset{30, 50, 80};
  }

  /** Listings 5 and 60, in any order: 5 is at most a tenth of 60, so they alert. */
  lemma SteepDiscountAlerts(prices: seq<int>)
    requires multiset(prices) == multiset{5, 60}
    ensures QuoteOf(Http(200, prices)) == Prices(5, 60)
    ensures IsDeal(5, 60)
  {
    SteepDiscountAlertsBag();
    assert |prices| == |multiset(prices)|;
    var q := QuoteOf(Http(200, prices));
    TwoLowestUnique(multiset(prices), 5, 60, q.lowest, q.next);
  }

  lemma SteepDiscountAlertsBag()
    ensures IsTwoLowest(multiset{5, 60}, 5, 60)
  {
    assert multiset{5, 60} - multiset{5} == multiset{60};
  }

  /**
   * Listings 500, 40 and 45, in any order: 40 is more than a tenth of 45, so
   * they do not alert.
   */
  lemma MildDiscountDoesNotAlert(prices: seq<int>)
    requires multiset(prices) == multiset{500, 40, 45}
    ensures QuoteOf(Http(200, prices)) == Prices(40, 45)
    ensures !IsDeal(40, 45)
  {
    MildDiscountDoesNotAlertBag();
    assert |prices| == |multiset(prices)|;
    var q := QuoteOf(Http(200, prices));
    TwoLowestUnique(multiset(prices), 40, 45, q.lowest, q.next);
  }

  lemma MildDiscountDoesNotAlertBag()
    ensures IsTwoLowest(multiset{500, 40, 45}, 40, 45)
  {
    assert multiset{500, 40, 45} - multiset{40} == multiset{45, 500};
  }

  /**
   * An item whose quote is the `IndexError` ends the tick, so a later item's
   * steep discount is never reported.
   */
  lemma IndexErrorHidesLaterDeal(first: string, second: string, quotes: string -> Quote)
    requires quotes(first).ListingIndexError?
    requires quotes(second) == Prices(5, 60)
    ensures Tick([first, second], quotes) == TickResult([], true)
  {
    var items := [first, second];
    assert items[..0] == [];
    TickStopsAtException(items, 0, quotes);
  }

  /**
   * A deal whose next price is 0 ends the tick without its alert, so a later
   * item's steep discount is never reported either.
   */
  lemma ZeroNextPriceHidesLaterDeal(first: string, second: string, quotes: string -> Quote)
    requires quotes(first) == Prices(0, 0)
    requires quotes(second) == Prices(5, 60)
    ensures Tick([first, second], quotes) == TickResult([], true)
  {
    var items := [first, second];
    assert items[..0] == [];
    TickStopsAtException(items, 0, quotes);
  }

  /**
   * Two listings at price 0, in any order, give lowest 0 and next 0: a deal
   * whose discount divides by zero.
   */
  lemma FreeListingsRaise(prices: seq<int>)
    requires multiset(prices) == multiset{0, 0}
    ensures QuoteOf(Http(200, prices)) == Prices(0, 0)
    ensures Raises(Prices(0, 0))
  {
    FreeListingsBag();
    assert |prices| == |multiset(prices)|;
    var q := QuoteOf(Http(200, prices));
    TwoLowestUnique(multiset(prices), 0, 0, q.lowest, q.next);
  }

  lemma FreeListingsBag()
    ensures IsTwoLowest(multiset{0, 0}, 0, 0)
  {
    assert multiset{0, 0} - multiset{0} == multiset{0};
  }

  /** A single listing is what gives the `IndexError`. */
  lemma SingleListingIsIndexError(price: int)
    ensures QuoteOf(Http(200, [price])).ListingIndexError?
  {
  }
}
