/**
 * The bid ledger: the accepted bids of every auction in acceptance order,
 * the query the views use for "the highest bid", and the invariant that
 * ties an auction's current price to its ledger.
 */
module Ledger {
  import opened Domain

  /** The prices of the bids on auction `a`, in the order they were accepted. */
  function PricesFor(bids: seq<Bid>, a: AuctionId): (ps: seq<Price>)
    ensures |ps| <= |bids|
  {
    if |bids| == 0 then []
    else
      var last := bids[|bids| - 1];
      PricesFor(bids[..|bids| - 1], a) + (if last.auction == a then [last.price] else [])
  }

  predicate StrictlyIncreasing(ps: seq<Price>) {
    forall i, j :: 0 <= i < j < |ps| ==> ps[i] < ps[j]
  }

  /** The last price of a ledger, unset when nothing has been accepted. */
  function LastPrice(ps: seq<Price>): (r: Option<Price>)
  {
    if ps == [] then None else Some(ps[|ps| - 1])
  }

  /**
   * The bid the views call the highest: the bid on `a` with the largest
   * price (the first of those at that price, should two be equal).
   */
  function HighestBid(bids: seq<Bid>, a: AuctionId): (r: Option<Bid>)
    ensures r.None? ==> forall i :: 0 <= i < |bids| ==> bids[i].auction != a
    ensures r.Some? ==> r.value.auction == a && r.value in bids
    ensures r.Some? ==> forall i :: 0 <= i < |bids| && bids[i].auction == a ==> bids[i].price <= r.value.price
  {
    if |bids| == 0 then None
    else
      var last := bids[|bids| - 1];
      var earlier := HighestBid(bids[..|bids| - 1], a);
      if last.auction != a then earlier
      else if earlier.None? || last.price > earlier.value.price then Some(last)
      else earlier
  }

  /** The most recently accepted bid on `a`. */
  function LastBid(bids: seq<Bid>, a: AuctionId): (r: Option<Bid>)
    ensures r.Some? ==> r.value.auction == a && r.value in bids
    ensures r.Some? <==> LastPrice(PricesFor(bids, a)).Some?
    ensures r.Some? ==> LastPrice(PricesFor(bids, a)) == Some(r.value.price)
  {
    if |bids| == 0 then None
    else if bids[|bids| - 1].auction == a then Some(bids[|bids| - 1])
    else LastBid(bids[..|bids| - 1], a)
  }

  /** Who holds the highest bid on `a`, if anyone bid. */
  function Winner(bids: seq<Bid>, a: AuctionId): (w: Option<UserId>)
    ensures w.Some? <==> exists i :: 0 <= i < |bids| && bids[i].auction == a
    ensures w.Some? ==> exists i :: 0 <= i < |bids| && bids[i].auction == a && bids[i].user == w.value
  {
    match HighestBid(bids, a)
    case None => None
    case Some(b) => Some(b.user)
  }

  /**
   * The price invariant: for every auction the ledger is strictly
   * increasing and the current price is the last accepted price.
   */
  ghost predicate PriceInvariant(auctions: map<AuctionId, Auction>, bids: seq<Bid>) {
    forall a {:trigger PricesFor(bids, a)} :: a in auctions ==>
      StrictlyIncreasing(PricesFor(bids, a)) && auctions[a].currentPrice == LastPrice(PricesFor(bids, a))
  }

  /** Appending a bid extends exactly its own auction's ledger, by its price. */
  lemma PricesForAppend(bids: seq<Bid>, b: Bid, a: AuctionId)
    ensures PricesFor(bids + [b], a) == PricesFor(bids, a) + (if b.auction == a then [b.price] else [])
  {
    assert (bids + [b])[..|bids|] == bids;
  }

  /** Every recorded bid on `a` contributes its price to `a`'s ledger. */
  lemma {:induction false} PriceInLedger(bids: seq<Bid>, a: AuctionId, i: nat)
    requires i < |bids| && bids[i].auction == a
    ensures bids[i].price in PricesFor(bids, a)
  {
    var n := |bids| - 1;
    if i < n {
      PriceInLedger(bids[..n], a, i);
    }
  }

  /** Every price in `a`'s ledger is the price of a recorded bid on `a`. */
  lemma {:induction false} LedgerPriceRecorded(bids: seq<Bid>, a: AuctionId, p: Price)
    requires p in PricesFor(bids, a)
    ensures exists i :: 0 <= i < |bids| && bids[i].auction == a && bids[i].price == p
  {
    var n := |bids| - 1;
    if p in PricesFor(bids[..n], a) {
      LedgerPriceRecorded(bids[..n], a, p);
      var i :| 0 <= i < n && bids[..n][i].auction == a && bids[..n][i].price == p;
      assert bids[i] == bids[..n][i];
    } else {
      assert bids[n].auction == a && bids[n].price == p;
    }
  }

  /**
   * The highest bid, as the views find it, bounds the whole ledger: a
   * price exceeds it exactly when it exceeds every accepted price.
   */
  lemma HighestBidBoundsLedger(bids: seq<Bid>, a: AuctionId, price: Price)
    ensures (HighestBid(bids, a).None? || price > HighestBid(bids, a).value.price)
        <==> (forall q :: q in PricesFor(bids, a) ==> q < price)
  {
    var h := HighestBid(bids, a);
    if h.Some? {
      var i :| 0 <= i < |bids| && bids[i] == h.value;
      PriceInLedger(bids, a, i);
      forall q | q in PricesFor(bids, a) ensures q <= h.value.price {
        LedgerPriceRecorded(bids, a, q);
      }
    }
  }

  /**
   * On a strictly increasing ledger the highest bid is the most recent
   * one: no tie-break is ever needed.
   */
  lemma {:induction false} HighestIsLast(bids: seq<Bid>, a: AuctionId)
    requires StrictlyIncreasing(PricesFor(bids, a))
    ensures HighestBid(bids, a) == LastBid(bids, a)
  {
    if |bids| > 0 {
      var n := |bids| - 1;
      var earlier := bids[..n];
      assert bids == earlier + [bids[n]];
      PricesForAppend(earlier, bids[n], a);
      var ps := PricesFor(earlier, a);
      assert StrictlyIncreasing(ps) by {
        assert forall i :: 0 <= i < |ps| ==> ps[i] == PricesFor(bids, a)[i];
      }
      HighestIsLast(earlier, a);
      if bids[n].auction == a {
        var h := HighestBid(earlier, a);
        if h.Some? {
          var i :| 0 <= i < n && earlier[i] == h.value;
          PriceInLedger(earlier, a, i);
          var k :| 0 <= k < |ps| && ps[k] == h.value.price;
          assert PricesFor(bids, a)[k] == ps[k];
          assert PricesFor(bids, a)[|ps|] == bids[n].price;
        }
      }
    }
  }

  /**
   * Under the price invariant the current price is the highest bid's
   * price, and it is unset exactly when no bid was accepted.
   */
  lemma CurrentPriceIsHighest(auctions: map<AuctionId, Auction>, bids: seq<Bid>, a: AuctionId)
    requires PriceInvariant(auctions, bids) && a in auctions
    ensures auctions[a].currentPrice.None? <==> HighestBid(bids, a).None?
    ensures HighestBid(bids, a).Some? ==> auctions[a].currentPrice == Some(HighestBid(bids, a).value.price)
    ensures forall q :: q in PricesFor(bids, a) ==> Some(q) == auctions[a].currentPrice || q < auctions[a].currentPrice.value
  {
    var ps := PricesFor(bids, a);
    assert StrictlyIncreasing(ps) && auctions[a].currentPrice == LastPrice(ps);
    HighestIsLast(bids, a);
    forall q | q in ps ensures Some(q) == auctions[a].currentPrice || q < auctions[a].currentPrice.value {
      var k :| 0 <= k < |ps| && ps[k] == q;
      if k < |ps| - 1 {
        assert ps[k] < ps[|ps| - 1];
      }
    }
  }

  /** Under an increasing ledger the winner is the bidder of the latest accepted bid. */
  lemma WinnerIsLastBidder(bids: seq<Bid>, a: AuctionId)
    requires StrictlyIncreasing(PricesFor(bids, a))
    ensures Winner(bids, a).None? <==> LastBid(bids, a).None?
    ensures LastBid(bids, a).Some? ==> Winner(bids, a) == Some(LastBid(bids, a).value.user)
  {
    HighestIsLast(bids, a);
  }
}
