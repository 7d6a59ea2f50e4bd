# Limit order book with a profit-and-loss ledger

A model of a single-instrument limit order book. Bids and asks are price
ladders: a map from price to a FIFO queue of orders, with the best bid at the
highest price and the best ask at the lowest. An index maps order ids to a
copy of each limit order added. Every trade is reported to a per-trader
ledger of realized cash and held units.

The modules follow the program:

- `Orders` (`orders.dfy`) holds the order record with its two setters, the
  trade record and the total volume of a list of trades.
- `Sums` (`sums.dfy`) holds sums over finite maps and the "`m[k] += d`, zero
  when absent" update.
- `Ledger` (`ledger.dfy`) is the profit-and-loss tracker. `PnLTracker` is a
  class whose two maps `RecordTrade` updates in place. `Report` builds the
  rows the printing loop would print.
- `Levels` (`levels.dfy`) covers price levels and ladders:
  - the best price;
  - a fill of the front order, which is popped and, when not exhausted,
    pushed back at the end with what is left;
  - enqueueing;
  - the cancel filter and the loop that drains a level through it;
  - the depth listing.
- `Matching` (`matching.dfy`) holds `MatchResult`, the crossing loop of
  `matchOrders`, and `SweepResult`, the loop of a market order. Both are
  ghost functions on values, with the properties proved about them.
- `Book` (`book.dfy`) holds the book operations as functions on a
  `BookState` value (`Add`, `AddLimit`, `AddMarket`, `Cancel`, `Modify`) with
  their lemmas. It also holds the `OrderBook` class. Its methods update
  `bids`, `asks`, `index` and the ledger in place, loop by loop as the source
  does. Each method is proved to leave exactly the state the matching
  function describes, and to record exactly the trades it returns, in order.

Prices are integer ticks and cash is an integer, so `quantity * price` is
exact. The market price is `Option<real>`: `None` stands for the -1
sentinel. Orders are values, because the source copies them into queues and
into the index; `setQuantity` and `setPrice` return the updated copy.

The invariant the book keeps between operations is `Book.BookOk`:

- no price level is empty;
- every queued order is a limit order, at its own price, on its own side,
  with positive quantity and price;
- the book is uncrossed (every bid is below every ask);
- every index entry is filed under its own id.

The ledger keeps `Ledger.Balanced`: the cash map and the holdings map have the
same traders, and each sums to zero.

The index is deliberately not required to match the queues, because the
code does not keep that:

- `matchOrders` erases both front ids from the index even when one of them
  survives a partial fill (order_book.cpp:125-126). `Book.AddLimitPartialFill`
  exhibits such a survivor: it still rests, but cancelling it fails.
- The market-order loops never touch the index (order_book.cpp:17-64), so a
  maker they consume stays indexed with its old quantity, and cancelling it
  later succeeds. `Book.AddMarketFills` states that the index is unchanged.
- A partially filled front order is pushed to the back of its level, so it
  loses time priority (order_book.cpp:31-35, 109-120). `Levels.Fill` states
  this.

## Model

| member | source | states |
|---|---|---|
| Orders.Order.WithQuantity | order.h:29 | only the quantity changes; id, type, side, trader and price are kept |
| Orders.Order.WithPrice | order.h:30 | only the price changes; id, type, side, trader and quantity are kept |
| Ledger.Transfer | pnl_tracker.cpp:7-12 | both traders become keys; the debited trader loses the amount and the credited one gains it, zero counting for a missing entry; everyone else is unchanged; a self-transfer changes nothing |
| Ledger.TransferConserves | pnl_tracker.cpp:7-8 | a transfer leaves the sum over all traders unchanged |
| Ledger.Record | pnl_tracker.cpp:3-13 | the buyer pays quantity × price to the seller and receives quantity units from them, zero counting for a missing entry; a self-trade leaves both entries as they were; every other trader is unchanged; buyer and seller become keys of both maps |
| Ledger.RecordKeepsBalanced | pnl_tracker.cpp:3-13 | recording a trade keeps cash and units zero-sum with the same traders in both maps |
| Ledger.RecordAllStep | pnl_tracker.cpp:3-13 | recording a list of trades and then one more is recording the longer list |
| Ledger.RecordAll | pnl_tracker.cpp:3-13 | the ledger after calling `recordTrade` for each trade in order; defined by its body; `RecordAllStep` and `RecordAllKeepsBalanced` prove its properties |
| Ledger.RecordAllKeepsBalanced | pnl_tracker.cpp:3-13 | any sequence of trades keeps the ledger balanced |
| Ledger.RowOf | pnl_tracker.cpp:19-26 | a row carries the trader's cash, the holding (0 when absent) as position, the position marked at the mark as unrealized, and realized plus unrealized as total |
| Ledger.TotalPnLSplit | pnl_tracker.cpp:19-26 | summed over rows marked at one price, the total column is the realized column plus the marked position column |
| Ledger.ReportSumsToZero | pnl_tracker.cpp:15-33 | the complete report of a balanced ledger sums to zero whatever the mark |
| Ledger.PnLTracker.constructor | pnl_tracker.h:8-9 | a new ledger has empty maps and is balanced |
| Ledger.PnLTracker.RecordTrade | pnl_tracker.cpp:3-13 | the maps are updated in place to `Record` of the old ones: the buyer's cash drops by quantity × price and their units rise by quantity, the seller's the reverse; balance is preserved |
| Ledger.PnLTracker.Report | pnl_tracker.cpp:15-33 | one row per trader with a cash entry, each row as `RowOf` at the mark, totals summing to zero; changes nothing |
| Levels.MaxKey | order_book.cpp:93 | the greatest price of a non-empty ladder (`rbegin`) |
| Levels.MinKey | order_book.cpp:94 | the least price of a non-empty ladder (`begin`) |
| Levels.Best | order_book.cpp:93-94 | the best price is a level of the side and at least as good as every other level |
| Levels.Fill | order_book.cpp:31-35 | the level's total drops by the amount traded; the rest of the level keeps its order; an exhausted front is dropped, otherwise it reappears at the back with the quantity left |
| Levels.FillKeepsLevel | order_book.cpp:109-120 | a positive fill leaves every order at the level resting with positive quantity at its price and side |
| Levels.Consume | order_book.cpp:31-37 | only the filled level changes; it is erased exactly when the fill empties it |
| Levels.ConsumeKeepsSide | order_book.cpp:109-123 | a positive fill keeps the side well formed, with no empty level |
| Levels.ConsumeQty | order_book.cpp:31-37 | a fill takes exactly the traded amount off the side's total |
| Levels.SideQtyPositive | order_book.cpp:18 | a well-formed side holds a positive total exactly when it is not empty |
| Levels.Enqueue | order_book.cpp:73-78 | the order joins the back of the queue at its price, which is created when absent; other levels are unchanged |
| Levels.EnqueueKeepsSide | order_book.cpp:73-78 | enqueueing a restable order keeps the side well formed and adds its quantity to the side's total |
| Levels.Without | order_book.cpp:179-185 | the filtered level holds exactly the orders with another id |
| Levels.WithoutAppend | order_book.cpp:179-185 | filtering works piecewise, so the kept orders keep their relative order |
| Levels.WithoutAbsent | order_book.cpp:179-186 | filtering an id no queued order has leaves the level as it was |
| Levels.Withdraw | order_book.cpp:178-186 | the draining loop builds exactly the filtered level |
| Levels.Depth | order_book.cpp:139-150 | each listed row names a level of the side with its number of orders |
| Levels.ListDepth | order_book.cpp:139-150 | the listing loop builds exactly `Depth` |
| Levels.DepthComplete | order_book.cpp:139-150 | a price is listed exactly when it has a non-empty level |
| Levels.DepthOrdered | order_book.cpp:139-150 | rows are listed best price first without repetition: ascending asks, descending bids |
| Matching.UncrossedBest | order_book.cpp:92-96 | for two non-empty sides, the loop's test of the best prices is the same as every bid being below every ask |
| Matching.MatchResult | order_book.cpp:91-131 | the sides and trades `matchOrders` leaves; defined by its body; `MatchStep`, `MatchKeepsSides`, `MatchUncrosses`, `MatchVolume` and `MatchTrades` prove its properties |
| Matching.MatchStep | order_book.cpp:96-126 | on a crossed book the fronts trade a positive quantity neither exceeds, at the sell order's price; the bid total strictly drops, and matching continues from the filled sides |
| Matching.MatchKeepsSides | order_book.cpp:91-131 | matching keeps both sides well formed and creates no level |
| Matching.MatchUncrosses | order_book.cpp:91-131 | when matching stops the book is uncrossed |
| Matching.MatchUncrossedIsIdle | order_book.cpp:92-130 | an uncrossed book does not trade |
| Matching.MatchVolume | order_book.cpp:96-123 | each side loses exactly the volume traded |
| Matching.MatchTrades | order_book.cpp:96-107 | every trade is positive, at an ask price no higher than the best bid |
| Matching.Execution | order_book.cpp:22-29 | a trade of the incoming order against a resting one is at the resting order's price; the buyer is whichever order buys |
| Matching.SweepResult | order_book.cpp:17-64 | the side, trades and unfilled quantity a market order's loop leaves; defined by its body; `SweepStep`, `SweepVolume`, `SweepStops`, `SweepTrades` and `SweepBestFirst` prove its properties |
| Matching.SweepStep | order_book.cpp:18-38 | one round of a market order: the best front of the other side trades min(left, its quantity) > 0, and the sweep continues with the order reduced by that much |
| Matching.SweepKeepsSide | order_book.cpp:17-64 | a sweep keeps the side well formed and creates no level |
| Matching.SweepVolume | order_book.cpp:15-68 | a market order fills min(its quantity, the side's total); that much leaves the side and the rest is unfilled; a non-positive quantity trades nothing |
| Matching.SweepStops | order_book.cpp:18-69 | a sweep stops only when the order is filled or the side is empty, and never overfills |
| Matching.SweepTrades | order_book.cpp:17-64 | every sweep trade is positive, at a price of the side, with the incoming order as buyer (or seller) |
| Matching.SweepBestFirst | order_book.cpp:19-43 | trade prices only get worse from one trade to the next |
| Matching.SweepLeavesWorse | order_book.cpp:17-64 | every level left after a sweep is no better than any traded price |
| Book.Ids | order_book.cpp:125-126 | both order ids of every trade are among the ids dropped from the index |
| Book.IdsExactly | order_book.cpp:125-126 | an id is dropped exactly when it is the buy or the sell order of some trade |
| Book.Rest | order_book.cpp:73-78 | the order becomes the last of the level at its price on its own side, behind the orders already there; every other level, the other side and the index are unchanged |
| Book.AddLimit | order_book.cpp:72-88 | the limit branch of `addOrder`: rest, index, then match; defined by its body; `AddLimitKeepsBook`, `AddLimitRests`, `AddLimitConserves` and `AddLimitPartialFill` prove its properties |
| Book.AddMarket | order_book.cpp:10-70 | the market branch of `addOrder`: sweep the opposite side; defined by its body; `AddMarketFills` proves its properties |
| Book.Add | order_book.cpp:7-89 | `addOrder`, choosing the branch by order type; defined by its body; `AddKeepsBook` proves it keeps the invariant |
| Book.RestKeepsSides | order_book.cpp:73-78 | enqueueing a positive limit order keeps both sides well formed and adds its quantity to its own side |
| Book.AddLimitKeepsBook | order_book.cpp:72-88 | adding a limit order keeps the book invariant, in particular uncrossed |
| Book.AddLimitRests | order_book.cpp:72-88 | a limit order that does not reach the best opposite price rests at the back of its level, is indexed and trades nothing |
| Book.AddLimitPartialFill | order_book.cpp:109-126 | a buy crossing the best ask for less than its front trades once; the front rests with the rest, yet its id has left the index and cancelling it fails |
| Book.CrossingBuyAlone | order_book.cpp:73-80 | a buy priced at or above the best ask opens its own level, which becomes the best bid |
| Book.AddLimitConserves | order_book.cpp:72-123 | each side afterwards holds what it held, plus the new order on its own side, minus the volume traded |
| Book.AddMarketFills | order_book.cpp:10-70 | a market order keeps the invariant, never touches the index or its own side, fills min(quantity, opposite total) and stops only when filled or the side is empty |
| Book.AddKeepsBook | order_book.cpp:7-89 | every admissible `addOrder` keeps the book invariant |
| Book.Cancel | order_book.cpp:168-194 | cancel succeeds exactly when the id is indexed; a failed cancel changes nothing |
| Book.CancelRemoves | order_book.cpp:170-193 | a cancel removes the id from the index and exactly the orders with that id at the indexed price; every other level of that side is unchanged, as is the other side; the level keeps the rest in order |
| Book.CancelKeepsBook | order_book.cpp:168-194 | cancelling keeps the book invariant |
| Book.Modify | order_book.cpp:196-208 | `modifyOrder`: cancel the indexed order and re-add its copy with the new quantity and price; defined by its body; `ModifyKeepsBook` proves its properties |
| Book.ModifyKeepsBook | order_book.cpp:196-208 | modifying keeps the invariant; it fails and changes nothing exactly when the id is unknown |
| Book.OrderBook.constructor | order_book.h:22-26 | a new book has empty sides, an empty index and an empty ledger |
| Book.OrderBook.CurrentMarketPrice | order_book.cpp:210-221 | the mid of best bid and best ask, strictly between them on an uncrossed book; else the one side's best; `None` when both are empty |
| Book.OrderBook.FillFront | order_book.cpp:109-123 | one fill of a front order: the side becomes `Consume` of the old side, nothing else changes |
| Book.OrderBook.TakeFront | order_book.cpp:19-38 | one round of a market loop: the trade is recorded; the old sweep is this trade followed by the sweep of the new side by the reduced order |
| Book.OrderBook.SweepAsks | order_book.cpp:17-40 | the market-buy loop leaves the asks, trades and unfilled quantity of `SweepResult`, and records those trades |
| Book.OrderBook.SweepBids | order_book.cpp:41-64 | the market-sell loop leaves the bids, trades and unfilled quantity of `SweepResult`, and records those trades |
| Book.OrderBook.RestOrder | order_book.cpp:73-80 | the limit order is enqueued on its side and indexed under its id, overwriting an earlier entry |
| Book.OrderBook.TradeFronts | order_book.cpp:96-126 | one round of `matchOrders`: the trade is recorded, both ids leave the index, and the bid total drops |
| Book.OrderBook.MatchOrders | order_book.cpp:91-132 | the loop leaves the sides and trades of `MatchResult`, drops the traded ids from the index and records the trades in order |
| Book.OrderBook.AddOrder | order_book.cpp:7-89 | the new state, trades and unfilled quantity are those of `Add`; the invariant is kept; the ledger records the trades in order |
| Book.OrderBook.CancelOrder | order_book.cpp:168-194 | the new state and the result are those of `Cancel`; the invariant is kept |
| Book.OrderBook.ModifyOrder | order_book.cpp:196-208 | the new state, result and trades are those of `Modify` (cancel, then re-add the copy with the new quantity and price) |
| Book.OrderBook.MarketDepth | order_book.cpp:134-154 | the ask and bid listings are `Depth` of each side; the report rows are marked at the market price or -1 and sum to zero |

## Left out

- main.cpp is not part of this model: the command loop, parsing and the id counter that callers own.
- Console output (`std::cout`, `std::setw`) is left out. Depth and profit-and-loss are returned as rows instead of printed.
- `printOpenOrders` is left out: it only prints the index.
- The mutex is left out, with all locking. `modifyOrder` locks it and then calls `cancelOrder` and `addOrder`, which lock it again (order_book.cpp:197, 202, 206). With a non-recursive mutex this deadlocks. The model calls the two operations as unlocked steps, which is evidently what was meant.
- `double` prices and cash are left out. Prices are integer ticks, and rounding and floating-point key comparison are not modelled. The market price and the report's unrealized and total columns are `real`.
- Integer overflow of `int` quantities is not modelled; integers are unbounded.
- The default `Order()` constructor and the getters are left out. The record's fields are read directly.
- The iteration order of the ledger's `unordered_map` is left out. `Report` produces the rows in an unspecified order.
- Book.OrderBook.AddOrder requires a limit order to have positive quantity and price. With other values the source can trade a non-positive quantity and grow a resting order (order_book.cpp:100, 117-118). A non-positive price is excluded as well, because the design makes a positive price the caller's duty; the source itself accepts such a price without either anomaly, and the invariant `Book.BookOk` is stated for positive prices. Market orders are taken as given.
- Book.OrderBook.ModifyOrder requires the new quantity and price to be positive, for the same reason.
- Book.OrderBook.ModifyOrder omits the branch that returns false when `cancelOrder` fails right after the id was found (order_book.cpp:202). That branch cannot be taken.
- Book.AddLimitPartialFill is stated for a buy order only; the sell case mirrors it.
