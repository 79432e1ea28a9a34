/**
 * The read side of the auction site: which page a viewer of a listing
 * gets, the comments newest first, the watchlist view, the user panel and
 * the category lookup. None of these change the state.
 */
module Queries {
  import opened Domain
  import opened Ledger
  import opened Rules

  // ------------------------------------------------------------ comments

  /** The comments on `a` in posting order: the thread as the table holds it. */
  function Thread(comments: seq<Comment>, a: AuctionId): (t: seq<Comment>)
    ensures |t| <= |comments|
    ensures forall c :: c in t <==> c in comments && c.auction == a
  {
    if |comments| == 0 then []
    else
      var n := |comments| - 1;
      assert comments == comments[..n] + [comments[n]];
      Thread(comments[..n], a) + (if comments[n].auction == a then [comments[n]] else [])
  }

  /** A sequence read back to front. */
  function Reversed(xs: seq<Comment>): (r: seq<Comment>)
    ensures |r| == |xs|
    ensures forall k :: 0 <= k < |xs| ==> r[k] == xs[|xs| - 1 - k]
  {
    if xs == [] then [] else [xs[|xs| - 1]] + Reversed(xs[..|xs| - 1])
  }

  /** The comments on `a`, newest first: every comment on `a` is listed, and no other. */
  function CommentsNewestFirst(comments: seq<Comment>, a: AuctionId): (r: seq<Comment>)
    ensures |r| <= |comments|
    ensures forall c :: c in r <==> c in comments && c.auction == a
  {
    if |comments| == 0 then []
    else
      var last := comments[|comments| - 1];
      (if last.auction == a then [last] else []) + CommentsNewestFirst(comments[..|comments| - 1], a)
  }

  /**
   * The listing order is the posting order reversed: the `k`-th comment
   * listed is the `k`-th comment on `a` counted back from the latest.
   */
  lemma {:induction false} NewestFirstReversesThread(comments: seq<Comment>, a: AuctionId)
    ensures CommentsNewestFirst(comments, a) == Reversed(Thread(comments, a))
  {
    if |comments| > 0 {
      var n := |comments| - 1;
      var c := comments[n];
      var t := Thread(comments[..n], a);
      NewestFirstReversesThread(comments[..n], a);
      if c.auction == a {
        calc {
          CommentsNewestFirst(comments, a);
          [c] + CommentsNewestFirst(comments[..n], a);
          [c] + Reversed(t);
          { ReversedSnoc(t, c); }
          Reversed(t + [c]);
          { assert Thread(comments, a) == t + [c]; }
          Reversed(Thread(comments, a));
        }
      } else {
        assert CommentsNewestFirst(comments, a) == [] + CommentsNewestFirst(comments[..n], a);
        assert Thread(comments, a) == t + [] == t;
      }
    }
  }

  /** Reading `xs + [c]` back to front starts with `c`. */
  lemma ReversedSnoc(xs: seq<Comment>, c: Comment)
    ensures Reversed(xs + [c]) == [c] + Reversed(xs)
  {
    assert (xs + [c])[..|xs|] == xs;
  }

  /** A posted comment heads its auction's thread; other threads do not change. */
  lemma PostedCommentComesFirst(s: State, verb: Verb, formValid: bool, id: AuctionId, user: UserId, text: string, a: AuctionId)
    requires PostComment(s, verb, formValid, id, user, text).outcome == Redirect
    ensures var n := PostComment(s, verb, formValid, id, user, text).next;
      CommentsNewestFirst(n.comments, a)
        == (if a == id then [Comment(id, user, text)] else []) + CommentsNewestFirst(s.comments, a)
  {
    var c := s.comments + [Comment(id, user, text)];
    assert c[..|s.comments|] == s.comments;
  }

  // ------------------------------------------------------- listing page

  /** The bid line of an open listing. */
  datatype BidMessage = BeTheFirst | YoursIsHighest | HighestBy(bidder: UserId)

  /** The page a viewer of a listing gets. */
  datatype Page =
    | AuctionMissing
    | Sold(winner: UserId)
    | Bought
    | ClosedNoOffer
    | ClosedToViewer
    | Detail(auction: Auction, bidCount: nat, message: BidMessage, onWatchlist: bool, comments: seq<Comment>)
  {
    /** The code shown: 404 and 403 on the error page, 200 for the rendered pages. */
    function Code(): (c: int)
    {
      match this
      case AuctionMissing => 404
      case ClosedToViewer => 403
      case _ => 200
    }
  }

  /**
   * The listing view. A closed auction shows its seller "sold" or "closed
   * with no offer", its highest bidder "bought", and everyone else an
   * error; an open auction shows its details. `viewer` is None for an
   * anonymous visitor.
   */
  function ListingPage(s: State, id: AuctionId, viewer: Option<UserId>): (page: Page) {
    if id !in s.auctions then AuctionMissing
    else
      var auction := s.auctions[id];
      var highest := HighestBid(s.bids, id);
      if auction.closed then
        if highest.Some? then
          var winner := highest.value.user;
          if viewer == Some(auction.seller) then Sold(winner)
          else if viewer == Some(winner) then Bought
          else ClosedToViewer
        else if viewer == Some(auction.seller) then ClosedNoOffer
        else ClosedToViewer
      else
        var message :=
          if highest.None? then BeTheFirst
          else if viewer == Some(highest.value.user) then YoursIsHighest
          else HighestBy(highest.value.user);
        var watching := viewer.Some? && WatchEntry(viewer.value, id) in s.watchlist;
        Detail(auction, |PricesFor(s.bids, id)|, message, watching, CommentsNewestFirst(s.comments, id))
  }

  /** No bid is recorded on `a` exactly when the views find no highest bid. */
  lemma {:induction false} NoBidIffNoHighest(bids: seq<Bid>, a: AuctionId)
    ensures PricesFor(bids, a) == [] <==> HighestBid(bids, a).None?
  {
    if |bids| > 0 {
      var n := |bids| - 1;
      assert bids == bids[..n] + [bids[n]];
      PricesForAppend(bids[..n], bids[n], a);
      NoBidIffNoHighest(bids[..n], a);
    }
  }

  /**
   * The pages of a closed auction: the seller gets "sold" when a bid exists
   * and "closed with no offer" otherwise, the highest bidder gets "bought",
   * anyone else (the anonymous visitor too) gets 403.
   */
  lemma ClosedListing(s: State, id: AuctionId, viewer: Option<UserId>)
    requires id in s.auctions && s.auctions[id].closed
    ensures var page := ListingPage(s, id, viewer);
      var seller := s.auctions[id].seller;
      var winner := Winner(s.bids, id);
      && (page.Sold? <==> viewer == Some(seller) && PricesFor(s.bids, id) != [])
      && (page.Sold? ==> winner == Some(page.winner))
      && (page == ClosedNoOffer <==> viewer == Some(seller) && PricesFor(s.bids, id) == [])
      && (page == Bought <==> viewer != Some(seller) && winner.Some? && viewer == winner)
      && (page.Code() == 403 <==> viewer != Some(seller) && (winner.None? || viewer != winner))
  {
    NoBidIffNoHighest(s.bids, id);
  }

  /**
   * The bid line of an open auction: "be the first" without bids, "yours"
   * for the holder of the highest bid, and otherwise who holds it.
   */
  lemma OpenListing(s: State, id: AuctionId, viewer: Option<UserId>)
    requires id in s.auctions && !s.auctions[id].closed
    ensures var page := ListingPage(s, id, viewer);
      var winner := Winner(s.bids, id);
      && page.Detail? && page.Code() == 200
      && page.auction == s.auctions[id]
      && page.bidCount == |PricesFor(s.bids, id)|
      && (page.message == BeTheFirst <==> PricesFor(s.bids, id) == [])
      && (page.message == YoursIsHighest <==> viewer.Some? && viewer == winner)
      && (forall u: UserId :: page.message == HighestBy(u) <==> winner == Some(u) && viewer != Some(u))
      && (page.onWatchlist <==> viewer.Some? && WatchEntry(viewer.value, id) in s.watchlist)
      && page.comments == Reversed(Thread(s.comments, id))
  {
    NoBidIffNoHighest(s.bids, id);
    NewestFirstReversesThread(s.comments, id);
  }

  /** Under the invariant the holder of the highest bid is whoever placed the latest accepted bid. */
  lemma HighestBidderIsLatest(s: State, id: AuctionId)
    requires Consistent(s) && id in s.auctions
    ensures Winner(s.bids, id).Some? <==> PricesFor(s.bids, id) != []
    ensures LastBid(s.bids, id).Some? ==> Winner(s.bids, id) == Some(LastBid(s.bids, id).value.user)
  {
    assert StrictlyIncreasing(PricesFor(s.bids, id));
    WinnerIsLastBidder(s.bids, id);
    NoBidIffNoHighest(s.bids, id);
  }

  // ----------------------------------------------------------- watchlist

  /** The watchlist view: the open auctions the user watches. */
  function WatchlistItems(s: State, user: UserId): (items: set<AuctionId>)
  {
    set a | a in s.auctions && !s.auctions[a].closed && WatchEntry(user, a) in s.watchlist
  }

  /**
   * The toggle as seen through the view: after adding, the auction is
   * listed exactly when it is open; after removing, it is not listed;
   * other auctions and other users' views are as before.
   */
  lemma WatchlistAfterToggle(s: State, id: AuctionId, user: UserId, flag: string, other: UserId)
    requires ToggleWatch(s, id, user, flag).outcome == Redirect
    ensures var n := ToggleWatch(s, id, user, flag).next;
      && (id in WatchlistItems(n, user) <==> flag != "True" && !s.auctions[id].closed)
      && WatchlistItems(n, user) - {id} == WatchlistItems(s, user) - {id}
      && (other != user ==> WatchlistItems(n, other) == WatchlistItems(s, other))
  {
    ToggleWatchEffect(s, id, user, flag);
  }

  /**
   * Closing an auction takes it off every watchlist view, while the stored
   * watchlist pairs stay as they were.
   */
  lemma CloseHidesFromWatchlist(s: State, id: AuctionId, seller: UserId, u: UserId)
    requires Close(s, Post, id, seller).outcome == Redirect
    ensures var n := Close(s, Post, id, seller).next;
      && n.watchlist == s.watchlist
      && WatchlistItems(n, u) == WatchlistItems(s, u) - {id}
  {
  }

  // ---------------------------------------------------------- user panel

  /** The auctions on which `u` has placed at least one bid. */
  function BidAuctions(bids: seq<Bid>, u: UserId): (r: set<AuctionId>)
  {
    set i | 0 <= i < |bids| && bids[i].user == u :: bids[i].auction
  }

  /**
   * A bid submission changes the bidder's "bid on" auctions only by adding
   * the auction of an accepted bid; every other user's are unchanged.
   */
  lemma BidAuctionsAfterBid(s: State, verb: Verb, formValid: bool, id: AuctionId, bidder: UserId, price: Price, u: UserId)
    ensures var r := PlaceBid(s, verb, formValid, id, bidder, price);
      BidAuctions(r.next.bids, u)
        == BidAuctions(s.bids, u) + (if r.outcome == Redirect && u == bidder then {id} else {})
  {
    var r := PlaceBid(s, verb, formValid, id, bidder, price);
    if r.outcome == Redirect {
      PlaceBidAccepted(s, verb, formValid, id, bidder, price);
      var nb := r.next.bids;
      forall i | 0 <= i < |s.bids| ensures nb[i] == s.bids[i] { }
      assert nb[|s.bids|] == Bid(id, bidder, price);
    } else {
      PlaceBidRejectedChangesNothing(s, verb, formValid, id, bidder, price);
    }
  }

  /** The four groups of the user panel. */
  datatype Panel = Panel(selling: set<AuctionId>, sold: set<AuctionId>, bidding: set<AuctionId>, won: set<AuctionId>)

  /** The closed auctions `u` bid on whose highest bid is `u`'s. */
  function Won(s: State, u: UserId): (won: set<AuctionId>) {
    set a | a in s.auctions && s.auctions[a].closed && a in BidAuctions(s.bids, u) && Winner(s.bids, a) == Some(u)
  }

  /**
   * The user panel: open and closed auctions the user sells, open auctions
   * the user bid on, and, by a loop over the closed auctions the user bid
   * on, those the user won. Won auctions are exactly the closed ones whose
   * highest bid is the user's.
   */
  method UserPanel(s: State, u: UserId) returns (p: Panel)
    ensures forall a :: a in p.selling <==> a in s.auctions && !s.auctions[a].closed && s.auctions[a].seller == u
    ensures forall a :: a in p.sold <==> a in s.auctions && s.auctions[a].closed && s.auctions[a].seller == u
    ensures forall a :: a in p.bidding <==> a in s.auctions && !s.auctions[a].closed && a in BidAuctions(s.bids, u)
    ensures forall a :: a in p.won <==> a in s.auctions && s.auctions[a].closed && Winner(s.bids, a) == Some(u)
    ensures p.won == Won(s, u)
  {
    var bidOn := BidAuctions(s.bids, u);
    var selling := set a | a in s.auctions && !s.auctions[a].closed && s.auctions[a].seller == u;
    var sold := set a | a in s.auctions && s.auctions[a].closed && s.auctions[a].seller == u;
    var bidding := set a | a in s.auctions && !s.auctions[a].closed && a in bidOn;
    var candidates := set a | a in s.auctions && s.auctions[a].closed && a in bidOn;
    var won: set<AuctionId> := {};
    var todo := candidates;
    while todo != {}
      invariant todo <= candidates
      invariant forall a :: a in won <==> a in candidates && a !in todo && Winner(s.bids, a) == Some(u)
      decreases todo
    {
      var a :| a in todo;
      var highest := HighestBid(s.bids, a);
      if highest.Some? && highest.value.user == u {
        won := won + {a};
      }
      todo := todo - {a};
    }
    forall a | a in s.auctions && s.auctions[a].closed && Winner(s.bids, a) == Some(u)
      ensures a in candidates
    {
      var i :| 0 <= i < |s.bids| && s.bids[i] == HighestBid(s.bids, a).value;
      assert s.bids[i].user == u && s.bids[i].auction == a;
    }
    p := Panel(selling, sold, bidding, won);
  }

  /**
   * Under the invariant the panel's groups do not overlap: a user never
   * both sells and bids on an auction, never wins an auction they sell,
   * and an auction is in "won" for exactly one user once closed with bids.
   */
  lemma PanelPartition(s: State, u: UserId, a: AuctionId)
    requires Consistent(s) && a in s.auctions
    ensures a in BidAuctions(s.bids, u) ==> s.auctions[a].seller != u
    ensures a in Won(s, u) ==> s.auctions[a].seller != u
    ensures a in Won(s, u) <==> s.auctions[a].closed && LastBid(s.bids, a).Some? && LastBid(s.bids, a).value.user == u
  {
    HighestBidderIsLatest(s, a);
    if a in BidAuctions(s.bids, u) {
      var i :| 0 <= i < |s.bids| && s.bids[i].user == u && s.bids[i].auction == a;
    }
    if Winner(s.bids, a) == Some(u) {
      var i :| 0 <= i < |s.bids| && s.bids[i] == HighestBid(s.bids, a).value;
      assert s.bids[i].user == u && s.bids[i].auction == a;
    }
  }

  /** The viewer who gets the "bought" page of an auction is exactly one whose panel lists it as won. */
  lemma BoughtIffWon(s: State, a: AuctionId, u: UserId)
    requires Consistent(s)
    ensures ListingPage(s, a, Some(u)) == Bought <==> a in Won(s, u)
  {
    if a in s.auctions {
      PanelPartition(s, u, a);
      if s.auctions[a].closed {
        ClosedListing(s, a, Some(u));
      }
    }
  }

  // ---------------------------------------------------------- categories

  /** The category catalogue: pairs of (code, full name). */
  type Catalog = seq<(string, string)>

  predicate Listed(catalog: Catalog, code: string) {
    exists i :: 0 <= i < |catalog| && catalog[i].0 == code
  }

  /**
   * Where a listed code is found when the catalogue is read into a
   * dictionary: at its last pair, which overrides any earlier one.
   */
  function LastIndexOf(catalog: Catalog, code: string): (i: nat)
    requires Listed(catalog, code)
    ensures i < |catalog| && catalog[i].0 == code
    ensures forall j :: i < j < |catalog| ==> catalog[j].0 != code
  {
    var n := |catalog| - 1;
    if catalog[n].0 == code then n
    else
      assert Listed(catalog[..n], code) by {
        var i :| 0 <= i < |catalog| && catalog[i].0 == code;
        assert catalog[..n][i] == catalog[i];
      }
      LastIndexOf(catalog[..n], code)
  }

  /** The page of the category view. */
  datatype CategoryPage =
    | CategoryNotSpecified
    | InvalidCategory
    | CategoryListing(fullName: string, auctions: set<AuctionId>)
  {
    function Code(): (c: int)
    {
      match this
      case CategoryNotSpecified => 404
      case InvalidCategory => 400
      case CategoryListing(_, _) => 200
    }
  }

  /**
   * The category view: no (or an empty) category is a 404, a code absent
   * from the catalogue is a 400, and a listed code shows its full name and
   * the open auctions of that category.
   */
  function CategoryView(catalog: Catalog, s: State, category: Option<string>): (page: CategoryPage)
    ensures page.CategoryNotSpecified? <==> category.None? || category.value == ""
    ensures page.InvalidCategory? <==> category.Some? && category.value != "" && !Listed(catalog, category.value)
    ensures page.CategoryListing? ==>
      && (exists i :: 0 <= i < |catalog| && catalog[i] == (category.value, page.fullName)
           && forall j :: i < j < |catalog| ==> catalog[j].0 != category.value)
      && forall a :: a in page.auctions <==> a in s.auctions && s.auctions[a].category == category.value && !s.auctions[a].closed
  {
    if category.None? || category.value == "" then CategoryNotSpecified
    else if Listed(catalog, category.value) then
      var code := category.value;
      CategoryListing(catalog[LastIndexOf(catalog, code)].1,
        set a | a in s.auctions && s.auctions[a].category == code && !s.auctions[a].closed)
    else InvalidCategory
  }
}
