/**
 * `fetch_market_data` with the HTTP and JSON layers replaced by the response
 * they deliver: either the request raised, or it came back with a status and
 * the unit prices of the `auction_item` array (an absent array reads as
 * empty). The listings are sorted in place by unit price and the first two
 * prices are returned.
 */
module Market {
  import opened PyList

  /** What `requests.get` and `resp.json()` yield for one item name. */
  datatype Response =
    | RequestFailed                              // requests.RequestException
    | Http(status: int, unitPrices: seq<int>)

  /** What `fetch_market_data` hands back to the monitoring loop. */
  datatype Quote =
    | NoData                                     // (None, None)
    | Prices(lowest: int, next: int)             // (lowest_price, next_price)
    | ListingIndexError                          // auction_item[1] raised IndexError

  predicate Sorted(s: seq<int>) {
    forall i, j :: 0 <= i < j < |s| ==> s[i] <= s[j]
  }

  /**
   * `lowest` and `next` are the two smallest prices of the bag `prices`:
   * both are listings, `lowest` is at most every price, and `next` is at most
   * every price once one copy of `lowest` is taken out.
   */
  ghost predicate IsTwoLowest(prices: multiset<int>, lowest: int, next: int) {
    && multiset{lowest, next} <= prices
    && (forall p | p in prices :: lowest <= p)
    && (forall p | p in prices - multiset{lowest} :: next <= p)
  }

  /** The smallest price of a non-empty listing. */
  function Min(prices: seq<int>): (m: int)
    requires prices != []
    ensures m in prices
    ensures forall i :: 0 <= i < |prices| ==> m <= prices[i]
  {
    if |prices| == 1 then prices[0]
    else
      var rest := Min(prices[1..]);
      assert rest in prices;
      if prices[0] <= rest then prices[0] else rest
  }

  /**
   * Reference result of `fetch_market_data`, stated without sorting: no data
   * for a failed request, a status other than 200 or an empty listing; the
   * `IndexError` for a single listing; otherwise the minimum and the minimum
   * of what is left once one copy of it is removed.
   */
  function QuoteOf(resp: Response): (q: Quote)
    ensures q.NoData? <==> resp.RequestFailed? || resp.status != 200 || resp.unitPrices == []
    ensures q.ListingIndexError? <==> resp.Http? && resp.status == 200 && |resp.unitPrices| == 1
    ensures q.Prices? ==> q.lowest <= q.next
    ensures q.Prices? ==> IsTwoLowest(multiset(resp.unitPrices), q.lowest, q.next)
  {
    if resp.RequestFailed? || resp.status != 200 || resp.unitPrices == [] then NoData
    else if |resp.unitPrices| == 1 then ListingIndexError
    else
      var xs := resp.unitPrices;
      var lowest := Min(xs);
      var rest := RemoveFirst(xs, lowest);
      var next := Min(rest);
      MinPairIsTwoLowest(xs, lowest, rest, next);
      Prices(lowest, next)
  }

  lemma MinPairIsTwoLowest(xs: seq<int>, lowest: int, rest: seq<int>, next: int)
    requires lowest in xs && forall i :: 0 <= i < |xs| ==> lowest <= xs[i]
    requires rest == RemoveFirst(xs, lowest)
    requires next in rest && forall i :: 0 <= i < |rest| ==> next <= rest[i]
    ensures lowest <= next
    ensures IsTwoLowest(multiset(xs), lowest, next)
  {
    RemoveFirstMultiset(xs, lowest);
    assert multiset(rest) == multiset(xs) - multiset{lowest};
    assert multiset{lowest, next} <= multiset(xs) by {
      assert multiset(xs) == multiset(rest) + multiset{lowest};
      assert next in multiset(rest);
    }
    forall p | p in multiset(xs) - multiset{lowest}
      ensures next <= p
    {
      assert p in rest;
    }
  }

  /**
   * The two smallest prices of a bag are unique, so which of several equal
   * listings a sort puts first does not matter.
   */
  lemma TwoLowestUnique(prices: multiset<int>, l1: int, n1: int, l2: int, n2: int)
    requires IsTwoLowest(prices, l1, n1) && IsTwoLowest(prices, l2, n2)
    ensures l1 == l2 && n1 == n2
  {
    assert l1 in prices && l2 in prices;
    assert l1 == l2;
    assert n1 in prices - multiset{l1} by {
      assert multiset{l1, n1} == multiset{l1} + multiset{n1};
    }
    assert n2 in prices - multiset{l1} by {
      assert multiset{l2, n2} == multiset{l2} + multiset{n2};
    }
  }

  /** The first two entries of a sorted listing are its two smallest prices. */
  lemma SortedHeadIsTwoLowest(s: seq<int>)
    requires Sorted(s) && |s| >= 2
    ensures IsTwoLowest(multiset(s), s[0], s[1])
  {
    var tail := s[1..];
    HeadAndRest(s);
    forall p | p in multiset(s)
      ensures s[0] <= p
    {
      assert p in s;
      var i :| 0 <= i < |s| && s[i] == p;
    }
    forall p | p in multiset(tail)
      ensures s[1] <= p
    {
      assert p in tail;
      var i :| 0 <= i < |tail| && tail[i] == p;
      assert tail[i] == s[i + 1];
    }
  }

  /** The bag of a listing is its first price plus the bag of the rest. */
  lemma HeadAndRest(s: seq<int>)
    requires |s| >= 2
    ensures multiset(s) - multiset{s[0]} == multiset(s[1..])
    ensures multiset{s[0], s[1]} <= multiset(s)
  {
    assert s == [s[0]] + s[1..];
    assert multiset(s) == multiset{s[0]} + multiset(s[1..]);
    assert s[1] in multiset(s[1..]) by {
      assert s[1..][0] == s[1];
    }
  }

  /** `auction_item.sort(key=...)`: sorts the listing's prices in place. */
  method SortByPrice(a: array<int>)
    modifies a
    ensures Sorted(a[..])
    ensures multiset(a[..]) == multiset(old(a[..]))
  {
    var i := 0;
    while i < a.Length
      invariant 0 <= i <= a.Length
      invariant Sorted(a[..i])
      invariant multiset(a[..]) == multiset(old(a[..]))
    {
      InsertIntoPrefix(a, i);
      i := i + 1;
    }
    assert a[..] == a[..a.Length];
  }

  /** One insertion-sort pass: moves `a[i]` left into the sorted prefix. */
  method InsertIntoPrefix(a: array<int>, i: nat)
    requires i < a.Length && Sorted(a[..i])
    modifies a
    ensures Sorted(a[..i + 1])
    ensures multiset(a[..]) == multiset(old(a[..]))
  {
    var j := i;
    while j > 0 && a[j - 1] > a[j]
      invariant 0 <= j <= i
      invariant multiset(a[..]) == multiset(old(a[..]))
      invariant forall p, q :: 0 <= p < q <= i && p != j && q != j ==> a[p] <= a[q]
      invariant forall q :: j < q <= i ==> a[j] <= a[q]
    {
      SwapWithPrevious(a, j);
      j := j - 1;
    }
  }

  method SwapWithPrevious(a: array<int>, j: nat)
    requires 0 < j < a.Length
    modifies a
    ensures a[j - 1] == old(a[j]) && a[j] == old(a[j - 1])
    ensures forall k :: 0 <= k < a.Length && k != j - 1 && k != j ==> a[k] == old(a[k])
    ensures multiset(a[..]) == multiset(old(a[..]))
  {
    a[j - 1], a[j] := a[j], a[j - 1];
  }

  /**
   * `fetch_market_data`: returns what `QuoteOf` describes, computed as the
   * source does, by sorting the listing and reading its first two entries.
   */
  method FetchMarketData(resp: Response) returns (q: Quote)
    ensures q == QuoteOf(resp)
  {
    if resp.RequestFailed? || resp.status != 200 {
      return NoData;
    }
    var listing := resp.unitPrices;
    if |listing| == 0 {
      return NoData;
    }
    var a := new int[|listing|](i requires 0 <= i < |listing| => listing[i]);
    assert a[..] == listing;
    SortByPrice(a);
    if a.Length < 2 {
      return ListingIndexError;
    }
    q := Prices(a[0], a[1]);
    SortedHeadIsTwoLowest(a[..]);
    var expected := QuoteOf(resp);
    TwoLowestUnique(multiset(listing), a[0], a[1], expected.lowest, expected.next);
  }
}
