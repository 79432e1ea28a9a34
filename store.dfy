/**
 * The persistent store the views update in place: the auction records,
 * the bid table, the watchlist table and the comment table. Each method
 * is one state-changing view, written as the view runs (guard after guard,
 * then the writes), and proved to answer and leave behind exactly what the
 * corresponding transition of `Rules` prescribes.
 */
module Store {
  import opened Domain
  import opened Ledger
  import opened Rules

  class Site {
    var auctions: map<AuctionId, Auction>
    var bids: seq<Bid>
    var watchlist: set<WatchEntry>
    var comments: seq<Comment>

    /** The stored tables as one value. */
    function Snapshot(): (st: State)
      reads this
    {
      State(auctions, bids, watchlist, comments)
    }

    ghost predicate Valid()
      reads this
    {
      Consistent(Snapshot())
    }

    /** A store holding the given consistent contents (the listings are created elsewhere). */
    constructor (initial: State)
      requires Consistent(initial)
      ensures Valid() && Snapshot() == initial
    {
      auctions := initial.auctions;
      bids := initial.bids;
      watchlist := initial.watchlist;
      comments := initial.comments;
    }

    /** The bid view. A closed auction is not refused. */
    method SubmitBid(verb: Verb, formValid: bool, id: AuctionId, bidder: UserId, price: Price) returns (outcome: Outcome)
      requires Valid()
      modifies this
      ensures Valid()
      ensures Step(outcome, Snapshot()) == PlaceBid(old(Snapshot()), verb, formValid, id, bidder, price)
    {
      PlaceBidKeepsConsistent(Snapshot(), verb, formValid, id, bidder, price);
      if verb != Post {
        return MethodNotAllowed;
      }
      if !formValid {
        return InvalidForm;
      }
      if id !in auctions {
        return NotFound;
      }
      var auction := auctions[id];
      if auction.seller == bidder {
        return SellerCannotBid;
      }
      var highest := HighestBid(bids, id);
      if highest.None? || price > highest.value.price {
        bids := bids + [Bid(id, bidder, price)];
        auction := auction.(currentPrice := Some(price));
        auctions := auctions[id := auction];
        return Redirect;
      }
      return BidTooLow;
    }

    /** The close view: existence, then verb, then seller. A second close is not refused. */
    method CloseAuction(verb: Verb, id: AuctionId, requester: UserId) returns (outcome: Outcome)
      requires Valid()
      modifies this
      ensures Valid()
      ensures Step(outcome, Snapshot()) == Close(old(Snapshot()), verb, id, requester)
    {
      CloseKeepsConsistent(Snapshot(), verb, id, requester);
      if id !in auctions {
        return NotFound;
      }
      if verb != Post {
        return MethodNotAllowed;
      }
      var auction := auctions[id];
      if requester != auction.seller {
        return Forbidden;
      }
      auction := auction.(closed := true);
      auctions := auctions[id := auction];
      return Redirect;
    }

    /** The POST branch of the watchlist view. */
    method Watchlist(id: AuctionId, user: UserId, onWatchlist: string) returns (outcome: Outcome)
      requires Valid()
      modifies this
      ensures Valid()
      ensures Step(outcome, Snapshot()) == ToggleWatch(old(Snapshot()), id, user, onWatchlist)
    {
      if id !in auctions {
        return NotFound;
      }
      var entry := WatchEntry(user, id);
      if onWatchlist == "True" {
        watchlist := watchlist - {entry};
      } else {
        if entry in watchlist {
          return AlreadyInWatchlist;
        }
        watchlist := watchlist + {entry};
      }
      return Redirect;
    }

    /** The comment view. A closed auction is not refused. */
    method HandleComment(verb: Verb, formValid: bool, id: AuctionId, user: UserId, text: string) returns (outcome: Outcome)
      requires Valid()
      modifies this
      ensures Valid()
      ensures Step(outcome, Snapshot()) == PostComment(old(Snapshot()), verb, formValid, id, user, text)
    {
      if verb != Post {
        return MethodNotAllowed;
      }
      if !formValid {
        return InvalidForm;
      }
      if id !in auctions {
        return NotFound;
      }
      comments := comments + [Comment(id, user, text)];
      return Redirect;
    }
  }

  /** A client run of bidding: a first bid, a low bid, a higher bid, the seller's bid. */
  method BiddingWalkthrough()
  {
    var seller, u1, u2 := 1, 2, 3;
    var initial := State(map[7 := Auction(seller, "Lamp", "HOM", false, None)], [], {}, []);
    assert PricesFor([], 7) == [] && HighestBid([], 7) == None;
    var site := new Site(initial);

    var o := site.SubmitBid(Post, true, 7, u1, 1000);
    assert o == Redirect && site.auctions[7].currentPrice == Some(1000);
    assert site.bids == [Bid(7, u1, 1000)];
    assert HighestBid(site.bids, 7) == Some(Bid(7, u1, 1000)) by {
      assert site.bids[..0] == [];
    }
    o := site.SubmitBid(Post, true, 7, u2, 500);
    assert o == BidTooLow && site.auctions[7].currentPrice == Some(1000);
    assert site.bids == [Bid(7, u1, 1000)];
    o := site.SubmitBid(Post, true, 7, u2, 1500);
    assert o == Redirect && site.auctions[7].currentPrice == Some(1500);
    o := site.SubmitBid(Post, true, 7, seller, 9000);
    assert o == SellerCannotBid && site.auctions[7].currentPrice == Some(1500);
  }

  /** A client run of closing and of the watchlist: a buyer's close is refused, the seller closes twice. */
  method ClosingWalkthrough()
  {
    var seller, u1 := 1, 2;
    var initial := State(map[7 := Auction(seller, "Lamp", "HOM", false, None)], [], {}, []);
    assert PricesFor([], 7) == [];
    var site := new Site(initial);

    var o := site.CloseAuction(Post, 7, u1);
    assert o == Forbidden && !site.auctions[7].closed;
    o := site.CloseAuction(Get, 7, seller);
    assert o == MethodNotAllowed && !site.auctions[7].closed;
    o := site.CloseAuction(Post, 7, seller);
    assert o == Redirect && site.auctions[7].closed;
    o := site.CloseAuction(Post, 7, seller);
    assert o == Redirect && site.auctions[7].closed;

    o := site.Watchlist(7, u1, "False");
    assert o == Redirect && site.watchlist == {WatchEntry(u1, 7)};
    o := site.Watchlist(7, u1, "False");
    assert o == AlreadyInWatchlist;
    o := site.Watchlist(7, u1, "True");
    assert o == Redirect && site.watchlist == {};
  }
}
