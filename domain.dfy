/**
 * The entities of the auction site and the outcomes its views report.
 *
 * Users and auctions are referred to by their primary keys. Prices are
 * whole cents: the site only compares and stores them.
 */
module Domain {

  type UserId = nat
  type AuctionId = nat
  type Price = int

  datatype Option<+T> = None | Some(value: T)

  /** A listing. `currentPrice` is unset until the first accepted bid. */
  datatype Auction = Auction(
    seller: UserId,
    title: string,
    category: string,
    closed: bool,
    currentPrice: Option<Price>)

  /** One accepted bid: which auction, who placed it, at what price. */
  datatype Bid = Bid(auction: AuctionId, user: UserId, price: Price)

  /** A remark left on a listing. */
  datatype Comment = Comment(auction: AuctionId, user: UserId, text: string)

  /** A watchlist membership: the unique (user, auction) pair. */
  datatype WatchEntry = WatchEntry(user: UserId, auction: AuctionId)

  /**
   * Everything the views read and write: the auctions by id, the bids in
   * the order they were accepted, the watchlist memberships and the
   * comments in the order they were posted.
   */
  datatype State = State(
    auctions: map<AuctionId, Auction>,
    bids: seq<Bid>,
    watchlist: set<WatchEntry>,
    comments: seq<Comment>)

  /** The request verb, as far as the views distinguish it. */
  datatype Verb = Get | Post

  /**
   * What a state-changing view answers. Every failure is rendered through
   * the error page, which displays a code; success is a redirect.
   */
  datatype Outcome =
    | Redirect
    | MethodNotAllowed
    | InvalidForm
    | NotFound
    | SellerCannotBid
    | BidTooLow
    | Forbidden
    | AlreadyInWatchlist
  {
    /** The code the response carries: 302 for the redirect, otherwise the code shown on the error page. */
    function Code(): (c: int)
    {
      match this
      case Redirect => 302
      case MethodNotAllowed => 405
      case InvalidForm => 400
      case NotFound => 404
      case SellerCannotBid => 400
      case BidTooLow => 400
      case Forbidden => 403
      case AlreadyInWatchlist => 400
    }
  }

  /** The outcome of a state-changing view together with the state it leaves behind. */
  datatype Step = Step(outcome: Outcome, next: State)
}
