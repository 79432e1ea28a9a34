# Auction site domain rules in Dafny

This project models the domain rules of the `auctions` views of the commerce
site (`commerce/auctions/views.py`) as an in-memory state machine, without
Django. The state holds:

- the auctions by id, each with its seller, title, category, `closed` flag and
  `current_price` (unset until the first accepted bid);
- the bids (auction, user, price) in acceptance order;
- the set of (user, auction) watchlist pairs;
- the comments in posting order.

Modules:

- `Domain` (domain.dfy): the entities, the `State`, the request verb, and the
  `Outcome` of a state-changing view together with the code it carries.
- `Ledger` (ledger.dfy): the bid ledger of one auction (`PricesFor`), the
  "highest bid" query the views run (`HighestBid`, the bid with the largest
  price), the latest bid, the winner, and the price invariant. The invariant
  says each auction's ledger is strictly increasing and its current price is
  the last accepted price.
- `Rules` (rules.dfy): the four state-changing views as pure transitions:
  `PlaceBid`, `Close`, `ToggleWatch` and `PostComment`. Their guards run in
  the order the views run them. The module also holds the state invariant
  `Consistent`, the lemmas about each transition, and the lemmas over any run
  of requests.
- `Queries` (queries.dfy): the read side. It covers the page a viewer of a
  listing gets and its bid message, comments newest first, the watchlist
  view, the user panel, and the category lookup. The panel's "won" group is
  computed by a loop, as in the view.
- `Store` (store.dfy): class `Site`, whose fields are the four tables.
  Its methods `SubmitBid`, `CloseAuction`, `Watchlist` and `HandleComment`
  update those fields step by step, as the views do. Each is proved to return
  the outcome and leave the state that the matching `Rules` transition gives,
  and to keep `Consistent`. Two client methods walk through a bidding session
  and a closing/watchlist session.

Outcome codes: the views render failures through an error page that shows a
code (404, 403, 405 or 400). The model records that code (`Outcome.Code`,
`Page.Code`). A success is the view's redirect, recorded as 302. Prices are
whole cents (`int`).

The model follows the code where the code is more permissive, or reports
differently, than one might expect of an auction site:

- A bid on a closed auction is accepted. `bid` never reads `closed`
  (views.py:178-189).
- A second close by the seller succeeds again and leaves the auction closed.
  `close_auction` has no already-closed check (views.py:210-215).
- `close_auction` checks existence before the verb. A GET on an unknown
  auction is therefore a 404, not a 405 (views.py:206-210).
- A seller's bid and a too-low bid are both reported with code 400
  (views.py:183, 190). No separate conflict or forbidden code is used.
- A comment on a closed auction is accepted (views.py:224-228).
- There is no separate winner operation. The winner is the user of the
  highest bid, as read by `listing_page` (views.py:127-133) and `user_panel`
  (views.py:102-103). The model's `Winner` is that query. Under the invariant,
  `WinnerIsLastBidder` shows it is the latest accepted bidder.

## Model

The functions that model the views, `Rules.PlaceBid`, `Rules.Close`, `Rules.ToggleWatch`, `Rules.PostComment` and `Queries.ListingPage`, carry no contract of their own. The lemma rows below specify them. The watchlist view `Queries.WatchlistItems` is the filter of views.py:167-168, specified by `Queries.WatchlistAfterToggle` and `Queries.CloseHidesFromWatchlist`.

| member | source | states |
|---|---|---|
| `Ledger.HighestBid` | commerce/auctions/views.py:184 | The highest bid is a recorded bid on the auction, and no recorded bid on it has a larger price. It is unset only when the auction has no bid. |
| `Ledger.HighestBidBoundsLedger` | commerce/auctions/views.py:184-185 | The guard "no highest bid, or price above it" holds exactly when the price exceeds every accepted price on the auction. |
| `Ledger.HighestIsLast` | commerce/auctions/views.py:184-188 | On a strictly increasing ledger, the highest bid is the latest accepted bid, so no tie-break is needed. |
| `Ledger.CurrentPriceIsHighest` | commerce/auctions/views.py:186-188 | Under the price invariant, `current_price` is unset exactly when there is no bid. Otherwise it equals the highest bid's price, and every accepted price is at most it. |
| `Ledger.WinnerIsLastBidder` | commerce/auctions/views.py:127-133 | On an increasing ledger, the holder of the highest bid is the bidder of the latest accepted bid. |
| `Ledger.LedgerPriceRecorded` | commerce/auctions/views.py:186 | Every price in an auction's ledger comes from a recorded bid on that auction. |
| `Rules.PlaceBidAccepted` | commerce/auctions/views.py:172-189 | A bid is accepted iff it is a POST with a valid form on an existing auction, the bidder is not the seller, and the price exceeds every accepted price on that auction. Closed auctions are included. Acceptance appends exactly that bid, extends the auction's ledger by the price, and sets `current_price` to it. Nothing else changes. |
| `Rules.PlaceBidRejectedChangesNothing` | commerce/auctions/views.py:172-192 | Every rejected bid (405, invalid form, 404, seller, too low) leaves the state unchanged. |
| `Rules.SellerBidRefused` | commerce/auctions/views.py:182-183 | A seller's valid POST on their own auction is refused as `SellerCannotBid` (code 400) at any price, before any price comparison. The state is unchanged. |
| `Rules.LowBidRefused` | commerce/auctions/views.py:184-190 | A price not above some accepted price is refused as too low. The ledger and `current_price` stay as they were. |
| `Rules.AcceptKeepsConsistent` | commerce/auctions/views.py:185-188 | Appending a bid that beats the ledger keeps the ledger strictly increasing and `current_price` equal to the last price. |
| `Rules.PlaceBidKeepsConsistent` | commerce/auctions/views.py:172-192 | Every bid submission, accepted or not, keeps the state invariant. |
| `Rules.CloseOutcome` | commerce/auctions/views.py:205-216 | Close outcomes are decided in order: 404 iff the auction is unknown (whatever the verb), then 405 for a non-POST, then 403 for a non-seller, otherwise a redirect. Only the redirect changes anything, and it changes only that auction's `closed` flag, to true. |
| `Rules.CloseIdempotent` | commerce/auctions/views.py:211-215 | A second close by the seller succeeds again and changes nothing. |
| `Rules.ToggleWatchEffect` | commerce/auctions/views.py:153-166 | An unknown auction gives 404. With "True" the toggle removes the (user, auction) pair, or does nothing if it is absent. Otherwise it adds the pair, or refuses with 400 if the pair is present. Auctions, bids and comments are untouched. |
| `Rules.WatchThenUnwatch` | commerce/auctions/views.py:159-166 | Adding an absent pair and then removing it restores the original state. |
| `Rules.PostCommentEffect` | commerce/auctions/views.py:219-231 | A comment is accepted iff it is a POST with a valid form on an existing auction, open or closed. It appends exactly that comment. Otherwise nothing changes. |
| `Rules.ApplyProperties` | commerce/auctions/views.py:172-231 | Every state-changing request keeps the invariant and changes nothing when it fails. No auction appears or disappears, and sellers stay. A closed auction is never reopened. The bid ledger only grows at its end, and a set `current_price` never decreases. |
| `Rules.RunProperties` | commerce/auctions/views.py:172-231 | The same holds over any sequence of requests. |
| `Rules.UnknownAuctionNotFound` | commerce/auctions/views.py:152-231 | An unknown auction id gives 404 with no state change for a valid bid, for a close with any verb, for a watchlist toggle and for a valid comment. |
| `Queries.Thread` | commerce/auctions/views.py:141 | The comments filtered by auction (the oldest-first reference for the listing) are exactly the table's comments on that auction, and there are no more of them than comments in the table. |
| `Queries.CommentsNewestFirst` | commerce/auctions/views.py:141 | The listing shows every comment on the auction and no other. |
| `Queries.NewestFirstReversesThread` | commerce/auctions/views.py:141 | The listing order is the posting order reversed: the k-th comment listed is the k-th comment on the auction counted back from the latest. |
| `Queries.PostedCommentComesFirst` | commerce/auctions/views.py:141 | After a comment is posted, it heads its auction's newest-first thread. The threads of other auctions are unchanged. |
| `Queries.NoBidIffNoHighest` | commerce/auctions/views.py:126-129 | An auction has no recorded bid exactly when the views find no highest bid. |
| `Queries.ClosedListing` | commerce/auctions/views.py:128-137 | On a closed auction, the seller gets "sold" (naming the highest bidder) iff a bid exists, and "closed with no offer" iff none does. The highest bidder, when not the seller, gets "bought". Everyone else, anonymous visitors included, gets 403. |
| `Queries.OpenListing` | commerce/auctions/views.py:138-149 | On an open auction, the page carries the auction and the bid count. The message is "be the first" iff there are no bids, "yours" iff the viewer holds the highest bid, and "highest by u" iff u holds it and is not the viewer. The watchlist flag is set iff a signed-in viewer watches it. The comments shown are the auction's comments in posting order, reversed (newest first). |
| `Queries.HighestBidderIsLatest` | commerce/auctions/views.py:127-144 | Under the invariant, someone holds the highest bid iff a bid exists, and that holder is the latest accepted bidder. |
| `Queries.CloseHidesFromWatchlist` | commerce/auctions/views.py:167-169 | Once the seller closes an auction, it disappears from every user's watchlist view, while the stored watchlist pairs stay unchanged. |
| `Queries.WatchlistAfterToggle` | commerce/auctions/views.py:159-169 | After a successful add, the auction is listed iff it is open. After a remove, it is not listed. Other auctions, and other users' views, are unchanged. |
| `Queries.BidAuctionsAfterBid` | commerce/auctions/views.py:96 | A bid submission adds the auction to the bidder's distinct "bid on" auctions exactly when the bid is accepted. No other user's set changes. |
| `Queries.UserPanel` | commerce/auctions/views.py:95-107 | "selling" and "sold" are the user's open and closed auctions. "bidding" is the open auctions the user bid on. "won" is built by the loop and is exactly the closed auctions whose highest bid is the user's. |
| `Queries.PanelPartition` | commerce/auctions/views.py:96-104 | Under the invariant, a user never bid on, and never won, an auction they sell. A closed auction is won by a user iff that user placed its latest bid. |
| `Queries.BoughtIffWon` | commerce/auctions/views.py:101-134 | Under the invariant, a user is shown "bought" for an auction exactly when their panel lists it as won. |
| `Queries.LastIndexOf` | commerce/auctions/views.py:198 | A listed category code is found at its last pair in the catalogue, as when the pairs are read into a dictionary. |
| `Queries.CategoryView` | commerce/auctions/views.py:194-202 | No category, or an empty one, gives 404. A code absent from the catalogue gives 400. A listed code shows the full name of its last pair and exactly the open auctions of that category. |
| `Store.Site.SubmitBid` | commerce/auctions/views.py:172-192 | The in-place bid view returns the outcome of `PlaceBid`, leaves the tables as `PlaceBid` does, and keeps the invariant. |
| `Store.Site.CloseAuction` | commerce/auctions/views.py:205-216 | The in-place close view returns the outcome of `Close` and leaves the tables as `Close` does. |
| `Store.Site.Watchlist` | commerce/auctions/views.py:153-166 | The in-place watchlist POST returns the outcome of `ToggleWatch` and leaves the tables as `ToggleWatch` does. |
| `Store.Site.HandleComment` | commerce/auctions/views.py:219-231 | The in-place comment view returns the outcome of `PostComment` and leaves the tables as `PostComment` does. |

## Left out

- Login, logout and registration (views.py:49-86). These delegate to the framework's authentication and sessions. The model receives an already resolved user id, or `None` for an anonymous visitor of a listing.
- The form classes and `is_valid()` (views.py:15-45). Form validity is a boolean input to each view. The bid price and comment text are given already cleaned.
- `create_listing` (views.py:110-119). It only saves the form with the requester as seller. The store is created from a given consistent state instead.
- `index` (views.py:90-92). It only lists open auctions newest first, and publication dates are not modelled.
- Template rendering, `reverse(...)`, redirect targets, the watchlist `next` parameter, and the error messages. Only the outcome kind and its code are modelled.
- Publication and comment timestamps and query ordering. Comments are listed newest first by reversing the append order, which is the timestamp order when comments are posted one after another. The panel groups and the watchlist view are sets, so the ORM's ordering is not modelled.
- The `float(...)` conversion of the bid price (views.py:176). Prices are whole cents.
- Auction ids in POST data that are missing or not numeric. Every id is a natural number, and an unknown id is a 404.
- The unique (user, auction) constraint of the watchlist table lives in the models, which are not part of this model. The model assumes that constraint and turns its violation into the 400 "Already in watchlist" outcome (views.py:162-165).
- `Auction.CATEGORY` lives in the models, which are not part of this model. The catalogue of (code, full name) pairs is a parameter of `CategoryView`.
- Concurrency between reading the highest bid (views.py:184) and writing the bid (views.py:186-188). The views use no transaction, and a sequential model cannot express the race.
- `Ledger.HighestBid` on equal prices: the ORM picks an unspecified bid among equal prices, and the model picks the earliest. Under the invariant, two accepted bids on one auction never have equal prices.
