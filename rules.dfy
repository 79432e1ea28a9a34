/**
 * The state-changing views of the auction site as transitions over a
 * `State`: bid submission, closing, the watchlist toggle and comment
 * posting. Each answers an `Outcome` and the state it leaves behind; the
 * guards run in the order the views run them.
 */
module Rules {
  import opened Domain
  import opened Ledger

  /**
   * The state invariant: the price invariant of every auction, every bid,
   * watchlist entry and comment refers to an existing auction, and no bid
   * was placed by the auction's own seller.
   */
  ghost predicate Consistent(s: State) {
    && PriceInvariant(s.auctions, s.bids)
    && (forall i :: 0 <= i < |s.bids| ==>
          s.bids[i].auction in s.auctions && s.bids[i].user != s.auctions[s.bids[i].auction].seller)
    && (forall e :: e in s.watchlist ==> e.auction in s.auctions)
    && (forall i :: 0 <= i < |s.comments| ==> s.comments[i].auction in s.auctions)
  }

  // ---------------------------------------------------------------- bid

  /** The state right after accepting `b`: the ledger extended and the auction's current price set. */
  function Accept(s: State, b: Bid): (n: State)
    requires b.auction in s.auctions
  {
    s.(bids := s.bids + [b],
       auctions := s.auctions[b.auction := s.auctions[b.auction].(currentPrice := Some(b.price))])
  }

  /**
   * Bid submission: the verb, then the form, then the auction's existence,
   * then the seller, then the price against the highest bid. Whether the
   * auction is closed is never looked at.
   */
  function PlaceBid(s: State, verb: Verb, formValid: bool, id: AuctionId, bidder: UserId, price: Price): (r: Step) {
    if verb != Post then Step(MethodNotAllowed, s)
    else if !formValid then Step(InvalidForm, s)
    else if id !in s.auctions then Step(NotFound, s)
    else if s.auctions[id].seller == bidder then Step(SellerCannotBid, s)
    else
      var highest := HighestBid(s.bids, id);
      if highest.None? || price > highest.value.price then Step(Redirect, Accept(s, Bid(id, bidder, price)))
      else Step(BidTooLow, s)
  }

  /**
   * A bid is accepted exactly when it is a valid POST on an existing
   * auction, the bidder is not the seller, and the price exceeds every
   * price accepted so far on that auction (trivially so for the first bid).
   * Acceptance appends exactly one bid and sets the current price to it;
   * nothing else changes.
   */
  lemma PlaceBidAccepted(s: State, verb: Verb, formValid: bool, id: AuctionId, bidder: UserId, price: Price)
    ensures PlaceBid(s, verb, formValid, id, bidder, price).outcome == Redirect
        <==> (&& verb == Post && formValid && id in s.auctions
              && s.auctions[id].seller != bidder
              && forall q :: q in PricesFor(s.bids, id) ==> q < price)
    ensures PlaceBid(s, verb, formValid, id, bidder, price).outcome == Redirect ==>
      var r := PlaceBid(s, verb, formValid, id, bidder, price).next;
      && r.bids == s.bids + [Bid(id, bidder, price)]
      && PricesFor(r.bids, id) == PricesFor(s.bids, id) + [price]
      && r.auctions.Keys == s.auctions.Keys
      && r.auctions[id] == s.auctions[id].(currentPrice := Some(price))
      && (forall a :: a in s.auctions && a != id ==> r.auctions[a] == s.auctions[a])
      && r.watchlist == s.watchlist && r.comments == s.comments
  {
    HighestBidBoundsLedger(s.bids, id, price);
    PricesForAppend(s.bids, Bid(id, bidder, price), id);
  }

  /** Every rejected bid leaves the whole state as it was. */
  lemma PlaceBidRejectedChangesNothing(s: State, verb: Verb, formValid: bool, id: AuctionId, bidder: UserId, price: Price)
    ensures PlaceBid(s, verb, formValid, id, bidder, price).outcome != Redirect ==>
      PlaceBid(s, verb, formValid, id, bidder, price).next == s
  {
  }

  /**
   * The seller's own bid is refused with 400 whatever its price, before any
   * price comparison, and the state is left alone.
   */
  lemma SellerBidRefused(s: State, id: AuctionId, price: Price)
    requires id in s.auctions
    ensures PlaceBid(s, Post, true, id, s.auctions[id].seller, price) == Step(SellerCannotBid, s)
  {
  }

  /**
   * A price that does not exceed some accepted price on the auction is
   * refused as too low, and neither the ledger nor the current price moves.
   */
  lemma LowBidRefused(s: State, id: AuctionId, bidder: UserId, price: Price, q: Price)
    requires id in s.auctions && s.auctions[id].seller != bidder
    requires q in PricesFor(s.bids, id) && price <= q
    ensures PlaceBid(s, Post, true, id, bidder, price) == Step(BidTooLow, s)
  {
    HighestBidBoundsLedger(s.bids, id, price);
  }

  /** A price above every entry extends a strictly increasing ledger. */
  lemma ExtendIncreasing(ps: seq<Price>, p: Price)
    requires StrictlyIncreasing(ps)
    requires forall q :: q in ps ==> q < p
    ensures StrictlyIncreasing(ps + [p])
  {
    var qs := ps + [p];
    forall i, j | 0 <= i < j < |qs| ensures qs[i] < qs[j] {
      assert qs[i] == ps[i];
      if j < |ps| { assert qs[j] == ps[j]; } else { assert ps[i] in ps; }
    }
  }

  /** Appending a bid that beats the ledger, by a non-seller, keeps the invariant. */
  lemma AcceptKeepsConsistent(s: State, b: Bid)
    requires Consistent(s) && b.auction in s.auctions
    requires b.user != s.auctions[b.auction].seller
    requires forall q :: q in PricesFor(s.bids, b.auction) ==> q < b.price
    ensures Consistent(Accept(s, b))
  {
    var n := Accept(s, b);
    forall a | a in n.auctions
      ensures StrictlyIncreasing(PricesFor(n.bids, a)) && n.auctions[a].currentPrice == LastPrice(PricesFor(n.bids, a))
    {
      PricesForAppend(s.bids, b, a);
      if a == b.auction {
        ExtendIncreasing(PricesFor(s.bids, a), b.price);
      }
    }
    forall i | 0 <= i < |n.bids|
      ensures n.bids[i].auction in n.auctions && n.bids[i].user != n.auctions[n.bids[i].auction].seller
    {
      if i < |s.bids| { assert n.bids[i] == s.bids[i]; }
    }
  }

  /** Every bid submission keeps the invariant: the ledger stays strictly increasing and the current price is its last entry. */
  lemma PlaceBidKeepsConsistent(s: State, verb: Verb, formValid: bool, id: AuctionId, bidder: UserId, price: Price)
    requires Consistent(s)
    ensures Consistent(PlaceBid(s, verb, formValid, id, bidder, price).next)
  {
    var r := PlaceBid(s, verb, formValid, id, bidder, price);
    if r.outcome == Redirect {
      PlaceBidAccepted(s, verb, formValid, id, bidder, price);
      AcceptKeepsConsistent(s, Bid(id, bidder, price));
    }
  }

  // -------------------------------------------------------------- close

  /**
   * Closing: existence first (so a GET on an unknown auction is a 404),
   * then the verb, then the seller. There is no already-closed check.
   */
  function Close(s: State, verb: Verb, id: AuctionId, requester: UserId): (r: Step) {
    if id !in s.auctions then Step(NotFound, s)
    else if verb != Post then Step(MethodNotAllowed, s)
    else if requester != s.auctions[id].seller then Step(Forbidden, s)
    else Step(Redirect, s.(auctions := s.auctions[id := s.auctions[id].(closed := true)]))
  }

  /**
   * The outcome of a close, case by case; only the seller's POST changes
   * anything, and it changes only the closed flag of that auction.
   */
  lemma CloseOutcome(s: State, verb: Verb, id: AuctionId, requester: UserId)
    ensures Close(s, verb, id, requester).outcome == NotFound <==> id !in s.auctions
    ensures Close(s, verb, id, requester).outcome == MethodNotAllowed <==> id in s.auctions && verb != Post
    ensures Close(s, verb, id, requester).outcome == Forbidden
        <==> id in s.auctions && verb == Post && requester != s.auctions[id].seller
    ensures Close(s, verb, id, requester).outcome == Redirect
        <==> id in s.auctions && verb == Post && requester == s.auctions[id].seller
    ensures Close(s, verb, id, requester).outcome != Redirect ==> Close(s, verb, id, requester).next == s
    ensures Close(s, verb, id, requester).outcome == Redirect ==>
      var r := Close(s, verb, id, requester).next;
      && r.auctions.Keys == s.auctions.Keys
      && r.auctions[id] == s.auctions[id].(closed := true)
      && (forall a :: a in s.auctions && a != id ==> r.auctions[a] == s.auctions[a])
      && r.bids == s.bids && r.watchlist == s.watchlist && r.comments == s.comments
  {
  }

  /** A second close by the seller succeeds again and changes nothing further. */
  lemma CloseIdempotent(s: State, id: AuctionId, requester: UserId)
    requires Close(s, Post, id, requester).outcome == Redirect
    ensures Close(Close(s, Post, id, requester).next, Post, id, requester)
         == Step(Redirect, Close(s, Post, id, requester).next)
  {
    var n := Close(s, Post, id, requester).next;
    assert n.auctions[id := n.auctions[id].(closed := true)] == n.auctions;
  }

  // ---------------------------------------------------------- watchlist

  /**
   * The watchlist POST: existence first; with "True" the pair is deleted
   * (deleting an absent pair is fine), otherwise it is created and a
   * second copy of the unique pair is refused.
   */
  function ToggleWatch(s: State, id: AuctionId, user: UserId, onWatchlist: string): (r: Step) {
    if id !in s.auctions then Step(NotFound, s)
    else
      var e := WatchEntry(user, id);
      if onWatchlist == "True" then Step(Redirect, s.(watchlist := s.watchlist - {e}))
      else if e in s.watchlist then Step(AlreadyInWatchlist, s)
      else Step(Redirect, s.(watchlist := s.watchlist + {e}))
  }

  /**
   * The toggle is a set update on the (user, auction) pairs: removal with
   * "True", insertion otherwise unless the pair is already there; the rest
   * of the state never moves.
   */
  lemma ToggleWatchEffect(s: State, id: AuctionId, user: UserId, onWatchlist: string)
    ensures var r := ToggleWatch(s, id, user, onWatchlist);
      && r.next.auctions == s.auctions && r.next.bids == s.bids && r.next.comments == s.comments
      && (id !in s.auctions ==> r == Step(NotFound, s))
      && (id in s.auctions && onWatchlist == "True" ==>
            r.outcome == Redirect && r.next.watchlist == s.watchlist - {WatchEntry(user, id)})
      && (id in s.auctions && onWatchlist != "True" && WatchEntry(user, id) in s.watchlist ==>
            r == Step(AlreadyInWatchlist, s))
      && (id in s.auctions && onWatchlist != "True" && WatchEntry(user, id) !in s.watchlist ==>
            r.outcome == Redirect && r.next.watchlist == s.watchlist + {WatchEntry(user, id)})
  {
  }

  /** Adding a pair that was absent and then removing it restores the watchlist. */
  lemma WatchThenUnwatch(s: State, id: AuctionId, user: UserId, flag: string)
    requires flag != "True"
    requires ToggleWatch(s, id, user, flag).outcome == Redirect
    ensures ToggleWatch(ToggleWatch(s, id, user, flag).next, id, user, "True") == Step(Redirect, s)
  {
    var e := WatchEntry(user, id);
    assert e !in s.watchlist;
    assert s.watchlist + {e} - {e} == s.watchlist;
  }

  // ----------------------------------------------------------- comments

  /**
   * Comment posting: the verb, the form, then the auction's existence;
   * the comment is then appended whatever the auction's state.
   */
  function PostComment(s: State, verb: Verb, formValid: bool, id: AuctionId, user: UserId, text: string): (r: Step) {
    if verb != Post then Step(MethodNotAllowed, s)
    else if !formValid then Step(InvalidForm, s)
    else if id !in s.auctions then Step(NotFound, s)
    else Step(Redirect, s.(comments := s.comments + [Comment(id, user, text)]))
  }

  /**
   * A comment is accepted exactly for a valid POST on an existing auction,
   * open or closed; acceptance appends exactly that comment.
   */
  lemma PostCommentEffect(s: State, verb: Verb, formValid: bool, id: AuctionId, user: UserId, text: string)
    ensures var r := PostComment(s, verb, formValid, id, user, text);
      && (r.outcome == Redirect <==> verb == Post && formValid && id in s.auctions)
      && (r.outcome != Redirect ==> r.next == s)
      && (r.outcome == Redirect ==> r.next == s.(comments := s.comments + [Comment(id, user, text)]))
  {
  }

  // ------------------------------------------------- all state changes

  /** A request to one of the state-changing views. */
  datatype Request =
    | BidRequest(verb: Verb, formValid: bool, auction: AuctionId, user: UserId, price: Price)
    | CloseRequest(verb: Verb, auction: AuctionId, user: UserId)
    | WatchRequest(auction: AuctionId, user: UserId, onWatchlist: string)
    | CommentRequest(verb: Verb, formValid: bool, auction: AuctionId, user: UserId, text: string)

  function Apply(s: State, req: Request): (r: Step) {
    match req
    case BidRequest(verb, valid, a, u, p) => PlaceBid(s, verb, valid, a, u, p)
    case CloseRequest(verb, a, u) => Close(s, verb, a, u)
    case WatchRequest(a, u, flag) => ToggleWatch(s, a, u, flag)
    case CommentRequest(verb, valid, a, u, t) => PostComment(s, verb, valid, a, u, t)
  }

  /** The views run a sequence of requests one after another. */
  function Run(s: State, reqs: seq<Request>): (n: State)
    decreases |reqs|
  {
    if reqs == [] then s else Run(Apply(s, reqs[0]).next, reqs[1..])
  }

  /**
   * How one auction may change over a request: its seller stays, a closed
   * auction stays closed, and a set price never goes down or is unset.
   */
  ghost predicate AuctionEvolves(x: Auction, y: Auction) {
    && y.seller == x.seller
    && (x.closed ==> y.closed)
    && (x.currentPrice.Some? ==> y.currentPrice.Some? && x.currentPrice.value <= y.currentPrice.value)
  }

  /** How the whole state may change: no auction appears or disappears, each evolves, the ledger only grows at its end. */
  ghost predicate Evolves(s: State, n: State) {
    && n.auctions.Keys == s.auctions.Keys
    && (forall a :: a in s.auctions ==> AuctionEvolves(s.auctions[a], n.auctions[a]))
    && s.bids <= n.bids
  }

  lemma EvolvesTransitive(s: State, m: State, n: State)
    requires Evolves(s, m) && Evolves(m, n)
    ensures Evolves(s, n)
  {
    forall a | a in s.auctions ensures AuctionEvolves(s.auctions[a], n.auctions[a]) {
      assert AuctionEvolves(s.auctions[a], m.auctions[a]);
      assert AuctionEvolves(m.auctions[a], n.auctions[a]);
    }
  }

  lemma PlaceBidEvolves(s: State, verb: Verb, formValid: bool, id: AuctionId, bidder: UserId, price: Price)
    requires Consistent(s)
    ensures Evolves(s, PlaceBid(s, verb, formValid, id, bidder, price).next)
  {
    var r := PlaceBid(s, verb, formValid, id, bidder, price);
    if r.outcome == Redirect {
      PlaceBidAccepted(s, verb, formValid, id, bidder, price);
      CurrentPriceIsHighest(s.auctions, s.bids, id);
      assert AuctionEvolves(s.auctions[id], r.next.auctions[id]);
    }
  }

  lemma CloseEvolves(s: State, verb: Verb, id: AuctionId, requester: UserId)
    ensures Evolves(s, Close(s, verb, id, requester).next)
  {
    CloseOutcome(s, verb, id, requester);
  }

  lemma CloseKeepsConsistent(s: State, verb: Verb, id: AuctionId, requester: UserId)
    requires Consistent(s)
    ensures Consistent(Close(s, verb, id, requester).next)
  {
    CloseOutcome(s, verb, id, requester);
    var n := Close(s, verb, id, requester).next;
    forall a | a in n.auctions
      ensures StrictlyIncreasing(PricesFor(n.bids, a)) && n.auctions[a].currentPrice == LastPrice(PricesFor(n.bids, a))
    {
      assert PricesFor(s.bids, a) == PricesFor(n.bids, a);
    }
  }

  /**
   * What holds of every single request: the invariant is kept, a failure
   * changes nothing, and the state evolves as `Evolves` allows (in
   * particular a closed auction is never reopened).
   */
  lemma ApplyProperties(s: State, req: Request)
    requires Consistent(s)
    ensures Consistent(Apply(s, req).next)
    ensures Apply(s, req).outcome != Redirect ==> Apply(s, req).next == s
    ensures Evolves(s, Apply(s, req).next)
  {
    match req
    case BidRequest(verb, valid, id, u, p) =>
      PlaceBidKeepsConsistent(s, verb, valid, id, u, p);
      PlaceBidEvolves(s, verb, valid, id, u, p);
    case CloseRequest(verb, id, u) =>
      CloseKeepsConsistent(s, verb, id, u);
      CloseEvolves(s, verb, id, u);
    case WatchRequest(id, u, flag) =>
      ToggleWatchEffect(s, id, u, flag);
    case CommentRequest(verb, valid, id, u, t) =>
      PostCommentEffect(s, verb, valid, id, u, t);
  }

  /** Over any run of requests the invariant holds and the state only evolves: closed auctions stay closed, prices never fall. */
  lemma {:induction false} RunProperties(s: State, reqs: seq<Request>)
    requires Consistent(s)
    ensures Consistent(Run(s, reqs))
    ensures Evolves(s, Run(s, reqs))
    decreases |reqs|
  {
    if reqs == [] {
      assert Run(s, reqs) == s;
    } else {
      var n := Apply(s, reqs[0]).next;
      ApplyProperties(s, reqs[0]);
      RunProperties(n, reqs[1..]);
      EvolvesTransitive(s, n, Run(n, reqs[1..]));
    }
  }

  /**
   * An unknown auction id is a 404 that changes nothing, for a valid bid,
   * for a close whatever the verb, for a watchlist toggle and for a valid
   * comment.
   */
  lemma UnknownAuctionNotFound(s: State, id: AuctionId, u: UserId, verb: Verb, p: Price, flag: string, text: string)
    requires id !in s.auctions
    ensures PlaceBid(s, Post, true, id, u, p) == Step(NotFound, s)
    ensures Close(s, verb, id, u) == Step(NotFound, s)
    ensures ToggleWatch(s, id, u, flag) == Step(NotFound, s)
    ensures PostComment(s, Post, true, id, u, text) == Step(NotFound, s)
  {
  }
}
