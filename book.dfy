/** The order book: bids and asks as price ladders, the order index, and the
    profit-and-loss ledger it reports every trade to. The operations are
    first defined as functions on a `BookState` value; the `OrderBook` class
    updates its fields in place and is proved to follow them. */
module Book {
  import opened Orders
  import opened Sums
  import opened Levels
  import opened Matching
  import opened Ledger

  /** The three containers of the book, as values. */
  datatype BookState = BookState(bids: Ladder, asks: Ladder, index: map<int, Order>)

  /** The effect of adding an order: the new book, the trades made (first
      trade first) and the quantity of a market order left unfilled. */
  datatype Outcome = Outcome(book: BookState, trades: seq<Trade>, unfilled: int)

  /** Every indexed order is filed under its own id and is a limit order
      with positive quantity and price. */
  ghost predicate IndexOk(index: map<int, Order>)
  {
    forall id :: id in index ==>
      index[id].id == id && index[id].kind == Limit && index[id].quantity > 0 && index[id].price > 0
  }

  /** What the book keeps between operations: both sides well formed (no
      empty level, every order resting at its own price on its own side with
      positive quantity), the sides uncrossed, and the index well formed. */
  ghost predicate BookOk(b: BookState)
  {
    SideOk(b.bids, Buy) && SideOk(b.asks, Sell) && Uncrossed(b.bids, b.asks) && IndexOk(b.index)
  }

  /** The inputs the model accepts: a limit order has positive quantity and
      price. A market order is taken as it is. */
  predicate Admissible(o: Order)
  {
    o.kind == Limit ==> o.quantity > 0 && o.price > 0
  }

  /** The ids of both orders of every trade. */
  function Ids(trades: seq<Trade>): (ids: set<int>)
    ensures forall t :: t in trades ==> t.buyOrder in ids && t.sellOrder in ids
  {
    if trades == [] then {}
    else
      var last := trades[|trades| - 1];
      assert forall t :: t in trades ==> t == last || t in trades[..|trades| - 1];
      Ids(trades[..|trades| - 1]) + {last.buyOrder, last.sellOrder}
  }

  /** The ids dropped after matching are exactly the ids of the two orders
      of some trade. */
  lemma {:induction false} IdsExactly(trades: seq<Trade>)
    ensures forall id :: id in Ids(trades) <==> exists t :: t in trades && (id == t.buyOrder || id == t.sellOrder)
  {
    if trades != [] {
      var init, last := trades[..|trades| - 1], trades[|trades| - 1];
      IdsExactly(init);
      assert trades == init + [last];
      forall id | id in Ids(trades)
        ensures exists t :: t in trades && (id == t.buyOrder || id == t.sellOrder)
      {
        if id !in Ids(init) {
          assert last in trades;
        } else {
          var t :| t in init && (id == t.buyOrder || id == t.sellOrder);
          assert t in trades;
        }
      }
    }
  }

  /** The ladder of the book that holds orders of `side`. */
  function SideOf(b: BookState, side: Side): Ladder
  {
    if side == Buy then b.bids else b.asks
  }

  /** Resting `o`: it becomes the last order of the level at its price on its
      own side, behind the orders already there (the level is opened when
      absent); every other level, the other side and the index are
      unchanged. */
  function Rest(b: BookState, o: Order): (r: BookState)
    ensures r.index == b.index
    ensures o.side == Buy ==> r.asks == b.asks
    ensures o.side == Sell ==> r.bids == b.bids
    ensures var own, own' := SideOf(b, o.side), SideOf(r, o.side);
      && own'.Keys == own.Keys + {o.price}
      && (forall p :: p in own && p != o.price ==> own'[p] == own[p])
      && own'[o.price] == (if o.price in own then own[o.price] else []) + [o]
  {
    if o.side == Buy then b.(bids := Enqueue(b.bids, o)) else b.(asks := Enqueue(b.asks, o))
  }

  /** Enqueuing a limit order that may rest keeps both sides well formed. */
  lemma RestKeepsSides(b: BookState, o: Order)
    requires BookOk(b) && o.kind == Limit && o.quantity > 0 && o.price > 0
    ensures SideOk(Rest(b, o).bids, Buy) && SideOk(Rest(b, o).asks, Sell)
    ensures SideQty(Rest(b, o).bids) == SideQty(b.bids) + (if o.side == Buy then o.quantity else 0)
    ensures SideQty(Rest(b, o).asks) == SideQty(b.asks) + (if o.side == Sell then o.quantity else 0)
  {
    EnqueueKeepsSide(if o.side == Buy then b.bids else b.asks, o, o.side);
  }

  /** The limit branch of `addOrder`: the order joins the back of its level
      and is indexed under its id (replacing an earlier entry), then the book
      is matched; every order that traded is dropped from the index. */
  ghost function AddLimit(b: BookState, o: Order): Outcome
    requires BookOk(b) && o.kind == Limit && o.quantity > 0 && o.price > 0
  {
    var r := Rest(b, o);
    RestKeepsSides(b, o);
    var m := MatchResult(r.bids, r.asks);
    Outcome(BookState(m.bids, m.asks, b.index[o.id := o] - Ids(m.trades)), m.trades, 0)
  }

  /** The market branch of `addOrder`: the order sweeps the opposite side and
      is neither queued nor indexed. */
  ghost function AddMarket(b: BookState, o: Order): Outcome
    requires BookOk(b)
  {
    if o.side == Buy then
      var s := SweepResult(b.asks, Sell, o);
      Outcome(b.(asks := s.rest), s.trades, s.left)
    else
      var s := SweepResult(b.bids, Buy, o);
      Outcome(b.(bids := s.rest), s.trades, s.left)
  }

  /** `addOrder`. */
  ghost function Add(b: BookState, o: Order): Outcome
    requires BookOk(b) && Admissible(o)
  {
    if o.kind == Market then AddMarket(b, o) else AddLimit(b, o)
  }

  /** `cancelOrder`: an unknown id fails and changes nothing; otherwise the
      order's level (found through the indexed copy's side and price) is
      filtered, erased when left empty, and the id leaves the index. */
  ghost function Cancel(b: BookState, id: int): (r: (BookState, bool))
    ensures r.1 <==> id in b.index
    ensures !r.1 ==> r.0 == b
  {
    if id !in b.index then (b, false)
    else
      var o := b.index[id];
      var ladder := if o.side == Buy then b.bids else b.asks;
      var ladder' :=
        if o.price !in ladder then ladder
        else
          var kept := Without(ladder[o.price], id);
          if kept == [] then ladder - {o.price} else ladder[o.price := kept];
      var index' := b.index - {id};
      if o.side == Buy then (BookState(ladder', b.asks, index'), true)
      else (BookState(b.bids, ladder', index'), true)
  }

  /** `modifyOrder`: an unknown id fails; otherwise the indexed order is
      cancelled and re-added as a limit order with the new quantity and
      price, keeping its id, side and trader. */
  ghost function Modify(b: BookState, id: int, qty: int, price: int): (Outcome, bool)
    requires BookOk(b) && qty > 0 && price > 0
  {
    if id !in b.index then (Outcome(b, [], 0), false)
    else
      var o := b.index[id];
      CancelKeepsBook(b, id);
      (AddLimit(Cancel(b, id).0, o.WithQuantity(qty).WithPrice(price)), true)
  }

  /** Adding a limit order keeps the book well formed, and in particular
      uncrossed. */
  lemma AddLimitKeepsBook(b: BookState, o: Order)
    requires BookOk(b) && o.kind == Limit && o.quantity > 0 && o.price > 0
    ensures BookOk(AddLimit(b, o).book)
  {
    var r := Rest(b, o);
    RestKeepsSides(b, o);
    var m := MatchResult(r.bids, r.asks);
    MatchKeepsSides(r.bids, r.asks);
    MatchUncrosses(r.bids, r.asks);
    IndexReplace(b.index, o, Ids(m.trades));
    assert AddLimit(b, o).book == BookState(m.bids, m.asks, b.index[o.id := o] - Ids(m.trades));
  }

  /** Indexing a limit order that may rest, and dropping any ids, keeps the
      index well formed. */
  lemma IndexReplace(index: map<int, Order>, o: Order, gone: set<int>)
    requires IndexOk(index) && o.kind == Limit && o.quantity > 0 && o.price > 0
    ensures IndexOk(index[o.id := o] - gone)
  {
  }

  /** A limit order that does not cross the best opposite price rests at the
      back of its level, is indexed, and nothing trades. */
  lemma AddLimitRests(b: BookState, o: Order)
    requires BookOk(b) && o.kind == Limit && o.quantity > 0 && o.price > 0
    requires o.side == Buy ==> b.asks == map[] || o.price < Best(b.asks, Sell)
    requires o.side == Sell ==> b.bids == map[] || Best(b.bids, Buy) < o.price
    ensures AddLimit(b, o) == Outcome(Rest(b, o).(index := b.index[o.id := o]), [], 0)
  {
    var r := Rest(b, o);
    RestKeepsSides(b, o);
    forall p, q | p in r.bids && q in r.asks
      ensures p < q
    {
      if o.side == Buy && p == o.price {
        // The new bid lies below the best ask, which no ask undercuts.
        assert Best(b.asks, Sell) <= q;
      } else if o.side == Sell && q == o.price {
        assert p <= Best(b.bids, Buy);
      }
    }
    MatchUncrossedIsIdle(r.bids, r.asks);
    assert Ids([]) == {};
  }

  /** A buy limit order for less than the best ask's front, priced at or
      above the best ask, trades once with that front. The front survives
      with what is left, at the back of its level, but its id has left the
      index, so cancelling it afterwards fails although it still rests. */
  lemma AddLimitPartialFill(b: BookState, o: Order)
    requires BookOk(b) && o.kind == Limit && o.quantity > 0 && o.price > 0 && o.side == Buy
    requires b.asks != map[] && Best(b.asks, Sell) <= o.price
    requires b.asks[Best(b.asks, Sell)][0].quantity > o.quantity
    ensures var ap := Best(b.asks, Sell);
      var s := b.asks[ap][0];
      var out := AddLimit(b, o);
      && out.trades == [Trade(o.id, s.id, o.trader, s.trader, o.quantity, ap)]
      && out.book.bids == b.bids
      && out.book.asks == Consume(b.asks, ap, o.quantity)
      && s.WithQuantity(s.quantity - o.quantity) in out.book.asks[ap]
      && s.id !in out.book.index
      && !Cancel(out.book, s.id).1
  {
    var ap := Best(b.asks, Sell);
    var s := b.asks[ap][0];
    var r := Rest(b, o);
    CrossingBuyFirstStep(b, o);
    var asks' := Consume(b.asks, ap, o.quantity);
    var t := Trade(o.id, s.id, o.trader, s.trader, o.quantity, s.price);
    assert Uncrossed(b.bids, asks') by {
      forall p, q | p in b.bids && q in asks'
        ensures p < q
      {
        assert q in b.asks;
      }
    }
    MatchUncrossedIsIdle(b.bids, asks');
    assert [t] + [] == [t];
    assert MatchResult(r.bids, r.asks) == Match(b.bids, asks', [t]);
    assert Ids([t]) == {o.id, s.id};
    assert AddLimit(b, o) == Outcome(BookState(b.bids, asks', b.index[o.id := o] - {o.id, s.id}), [t], 0);
    assert s in b.asks[ap];
    assert asks'[ap] == Fill(b.asks[ap], o.quantity);
    assert asks'[ap][|b.asks[ap]| - 1] == s.WithQuantity(s.quantity - o.quantity);
  }

  /** The first round of matching after a buy limit order that crosses the
      best ask for less than its front: the new order is alone at the best
      bid, trades all of its quantity, and leaves the bid side as it was. */
  lemma CrossingBuyFirstStep(b: BookState, o: Order)
    requires BookOk(b) && o.kind == Limit && o.quantity > 0 && o.price > 0 && o.side == Buy
    requires b.asks != map[] && Best(b.asks, Sell) <= o.price
    requires b.asks[Best(b.asks, Sell)][0].quantity > o.quantity
    ensures var ap, r := Best(b.asks, Sell), Rest(b, o);
      var s := b.asks[ap][0];
      && SideOk(r.bids, Buy) && SideOk(r.asks, Sell) && r.asks == b.asks
      && SideOk(Consume(b.asks, ap, o.quantity), Sell)
      && MatchResult(r.bids, r.asks) ==
         After([Trade(o.id, s.id, o.trader, s.trader, o.quantity, s.price)],
               MatchResult(b.bids, Consume(b.asks, ap, o.quantity)))
  {
    var ap := Best(b.asks, Sell);
    var r := Rest(b, o);
    RestKeepsSides(b, o);
    CrossingBuyAlone(b, o);
    assert b.asks[ap][0] in b.asks[ap];
    ConsumeKeepsSide(b.asks, ap, o.quantity, Sell);
    MatchStep(r.bids, r.asks);
  }

  /** A buy limit order priced at or above the best ask opens a new level
      of its own, which becomes the best bid; filling all of it removes that
      level again. */
  lemma CrossingBuyAlone(b: BookState, o: Order)
    requires BookOk(b) && o.side == Buy && o.quantity > 0
    requires b.asks != map[] && Best(b.asks, Sell) <= o.price
    ensures o.price !in b.bids
    ensures Rest(b, o).bids == b.bids[o.price := [o]]
    ensures Best(Rest(b, o).bids, Buy) == o.price
    ensures Consume(Rest(b, o).bids, o.price, o.quantity) == b.bids
  {
    var ap := Best(b.asks, Sell);
    assert forall p :: p in b.bids ==> p < ap;
    var bids' := Rest(b, o).bids;
    assert bids' == b.bids[o.price := [o]];
    assert forall p :: p in bids' ==> p <= o.price;
    assert Fill([o], o.quantity) == [];
    assert bids' - {o.price} == b.bids;
  }

  /** Quantity is conserved by a limit order: what rests on each side
      afterwards is what rested before, plus the new order on its own side,
      minus the volume traded. */
  lemma AddLimitConserves(b: BookState, o: Order)
    requires BookOk(b) && o.kind == Limit && o.quantity > 0 && o.price > 0
    ensures var out := AddLimit(b, o);
      && SideQty(out.book.bids) == SideQty(b.bids) + (if o.side == Buy then o.quantity else 0) - Volume(out.trades)
      && SideQty(out.book.asks) == SideQty(b.asks) + (if o.side == Sell then o.quantity else 0) - Volume(out.trades)
  {
    var r := Rest(b, o);
    RestKeepsSides(b, o);
    MatchVolume(r.bids, r.asks);
  }

  /** A market order keeps the book well formed, never changes the index or
      its own side, fills the smaller of its quantity and what rests on the
      other side, and stops only when filled or when that side is empty. */
  lemma AddMarketFills(b: BookState, o: Order)
    requires BookOk(b)
    ensures var out := AddMarket(b, o);
      && BookOk(out.book)
      && out.book.index == b.index
      && (o.side == Buy ==> out.book.bids == b.bids)
      && (o.side == Sell ==> out.book.asks == b.asks)
      && (o.quantity <= 0 ==> out == Outcome(b, [], o.quantity))
      && (o.quantity > 0 ==>
            && Volume(out.trades) == Min(o.quantity, SideQty(if o.side == Buy then b.asks else b.bids))
            && out.unfilled == o.quantity - Volume(out.trades) >= 0
            && (out.unfilled == 0 || (if o.side == Buy then out.book.asks else out.book.bids) == map[]))
  {
    var side := if o.side == Buy then Sell else Buy;
    var ladder := if o.side == Buy then b.asks else b.bids;
    SweepKeepsSide(ladder, side, o);
    SweepVolume(ladder, side, o);
    if o.quantity > 0 {
      SweepStops(ladder, side, o);
    }
  }

  /** Every `addOrder` keeps the book well formed. */
  lemma AddKeepsBook(b: BookState, o: Order)
    requires BookOk(b) && Admissible(o)
    ensures BookOk(Add(b, o).book)
  {
    if o.kind == Market {
      AddMarketFills(b, o);
    } else {
      AddLimitKeepsBook(b, o);
    }
  }

  /** A successful cancel takes the order out of its level and nothing else:
      on its side, an order is still queued exactly when it was queued before
      and is not the cancelled id at the cancelled order's price; every other
      level of that side, and the other side, are untouched. */
  lemma CancelRemoves(b: BookState, id: int)
    requires id in b.index
    ensures var o, r := b.index[id], Cancel(b, id).0;
      var (old', new') := if o.side == Buy then (b.bids, r.bids) else (b.asks, r.asks);
      && r.index == b.index - {id}
      && (o.side == Buy ==> r.asks == b.asks)
      && (o.side == Sell ==> r.bids == b.bids)
      && new'.Keys <= old'.Keys
      && (forall p :: p in old' && p != o.price ==> p in new' && new'[p] == old'[p])
      && (forall p, x :: p in new' && x in new'[p] <==> p in old' && x in old'[p] && !(p == o.price && x.id == id))
      && (o.price in new' ==> new'[o.price] == Without(old'[o.price], id))
  {
  }

  /** Cancelling keeps the book well formed. */
  lemma CancelKeepsBook(b: BookState, id: int)
    requires BookOk(b)
    ensures BookOk(Cancel(b, id).0)
  {
    if id in b.index {
      CancelRemoves(b, id);
    }
  }

  /** Modifying keeps the book well formed; an unknown id changes nothing. */
  lemma ModifyKeepsBook(b: BookState, id: int, qty: int, price: int)
    requires BookOk(b) && qty > 0 && price > 0
    ensures BookOk(Modify(b, id, qty, price).0.book)
    ensures !Modify(b, id, qty, price).1 <==> id !in b.index
    ensures id !in b.index ==> Modify(b, id, qty, price).0 == Outcome(b, [], 0)
  {
    if id in b.index {
      var o := b.index[id];
      CancelKeepsBook(b, id);
      AddLimitKeepsBook(Cancel(b, id).0, o.WithQuantity(qty).WithPrice(price));
    }
  }

  /** The order book. `bids` and `asks` are the two ladders, `index` holds a
      copy of every order added as a limit order under its id, and `ledger`
      receives every trade. */
  class OrderBook {
    var bids: Ladder
    var asks: Ladder
    var index: map<int, Order>
    const ledger: PnLTracker

    ghost function State(): BookState
      reads this
    {
      BookState(bids, asks, index)
    }

    ghost predicate Valid()
      reads this, ledger
    {
      ledger.Valid() && BookOk(State())
    }

    constructor ()
      ensures Valid() && fresh(ledger)
      ensures State() == BookState(map[], map[], map[])
      ensures ledger.Snapshot() == Accounts(map[], map[])
    {
      bids, asks, index := map[], map[], map[];
      ledger := new PnLTracker();
    }

    /** The mid price of the best bid and best ask, or the best price of the
        only non-empty side; `None` (the source's -1 sentinel) when both
        sides are empty. */
    function CurrentMarketPrice(): (price: Option<real>)
      reads this
      ensures price == None <==> bids == map[] && asks == map[]
      ensures bids != map[] && asks == map[] ==> price == Some(Best(bids, Buy) as real)
      ensures bids == map[] && asks != map[] ==> price == Some(Best(asks, Sell) as real)
      ensures bids != map[] && asks != map[] ==>
        price.Some? && 2.0 * price.value == (Best(bids, Buy) + Best(asks, Sell)) as real
      ensures bids != map[] && asks != map[] && Uncrossed(bids, asks) ==>
        price.Some? && Best(bids, Buy) as real < price.value < Best(asks, Sell) as real
    {
      if bids != map[] && asks != map[] then
        var mid := (Best(bids, Buy) + Best(asks, Sell)) as real / 2.0;
        UncrossedBest(bids, asks);
        Some(mid)
      else if bids != map[] then Some(Best(bids, Buy) as real)
      else if asks != map[] then Some(Best(asks, Sell) as real)
      else None
    }

    /** One fill of `traded` against the front order at `price` on `side`:
        the front is popped, pushed back with what is left of it when not
        exhausted, and the level is erased when left empty. */
    method FillFront(side: Side, price: int, traded: int)
      requires side == Buy ==> price in bids && bids[price] != [] && traded <= bids[price][0].quantity
      requires side == Sell ==> price in asks && asks[price] != [] && traded <= asks[price][0].quantity
      modifies this
      ensures side == Buy ==> bids == Consume(old(bids), price, traded) && asks == old(asks)
      ensures side == Sell ==> asks == Consume(old(asks), price, traded) && bids == old(bids)
      ensures index == old(index)
    {
      var level := if side == Buy then bids[price] else asks[price];
      var front := level[0];
      level := level[1..];
      if front.quantity > traded {
        level := level + [front.WithQuantity(front.quantity - traded)];
      }
      if side == Buy {
        bids := bids[price := level];
        if level == [] {
          bids := bids - {price};
        }
      } else {
        asks := asks[price := level];
        if level == [] {
          asks := asks - {price};
        }
      }
    }

    /** One round of a market order's loop against `side`: the front of the
        best level trades the smaller of its quantity and the market order's
        with the market order, at its own price; the trade is recorded and
        the front is filled. The sweep of the old side is this trade followed
        by the sweep of the new side by what is left of the market order. */
    method TakeFront(side: Side, taker: Order) returns (t: Trade)
      requires ledger.Valid() && taker.quantity > 0
      requires side == Buy ==> SideOk(bids, Buy) && bids != map[]
      requires side == Sell ==> SideOk(asks, Sell) && asks != map[]
      modifies this, ledger
      ensures ledger.Valid() && 0 < t.quantity <= taker.quantity
      ensures side == Buy ==>
        (&& SideOk(bids, Buy) && asks == old(asks)
         && SweepResult(old(bids), Buy, taker) == SweepAfter([t], SweepResult(bids, Buy, taker.WithQuantity(taker.quantity - t.quantity))))
      ensures side == Sell ==>
        (&& SideOk(asks, Sell) && bids == old(bids)
         && SweepResult(old(asks), Sell, taker) == SweepAfter([t], SweepResult(asks, Sell, taker.WithQuantity(taker.quantity - t.quantity))))
      ensures index == old(index)
      ensures ledger.Snapshot() == Record(old(ledger.Snapshot()), t.buyer, t.seller, t.quantity, t.price)
    {
      var ladder := if side == Buy then bids else asks;
      var bestPrice := Best(ladder, side);
      var maker := ladder[bestPrice][0];
      var traded := Min(taker.quantity, maker.quantity);
      t := Execution(taker, maker, traded);
      SweepStep(ladder, side, taker);
      ledger.RecordTrade(t.buyer, t.seller, traded, maker.price);
      FillFront(side, bestPrice, traded);
    }

    /** The buying loop of `addOrder` for a market buy order: while the
        ask side is not empty and the order has quantity left, it trades
        with the front of the best ask level at that order's price, and its
        quantity goes down by the amount traded. */
    method SweepAsks(taker: Order) returns (trades: seq<Trade>, left: int)
      requires ledger.Valid() && SideOk(asks, Sell)
      modifies this, ledger
      ensures ledger.Valid()
      ensures var s := SweepResult(old(asks), Sell, taker);
        asks == s.rest && trades == s.trades && left == s.left
      ensures bids == old(bids) && index == old(index)
      ensures ledger.Snapshot() == RecordAll(old(ledger.Snapshot()), trades)
    {
      ghost var s0 := SweepResult(asks, Sell, taker);
      ghost var accounts0 := ledger.Snapshot();
      var marketOrder := taker;
      trades := [];
      while asks != map[] && marketOrder.quantity > 0
        invariant ledger.Valid() && SideOk(asks, Sell)
        invariant s0 == SweepAfter(trades, SweepResult(asks, Sell, marketOrder))
        invariant bids == old(bids) && index == old(index)
        invariant ledger.Snapshot() == RecordAll(accounts0, trades)
        decreases marketOrder.quantity
      {
        var t := TakeFront(Sell, marketOrder);
        marketOrder := marketOrder.WithQuantity(marketOrder.quantity - t.quantity);
        SweepAfterStep(trades, t, SweepResult(asks, Sell, marketOrder));
        RecordAllStep(accounts0, trades, t);
        trades := trades + [t];
      }
      left := marketOrder.quantity;
      assert trades + [] == trades;
    }

    /** The selling loop of `addOrder` for a market sell order: while the
        bid side is not empty and the order has quantity left, it trades
        with the front of the best bid level at that order's price, and its
        quantity goes down by the amount traded. */
    method SweepBids(taker: Order) returns (trades: seq<Trade>, left: int)
      requires ledger.Valid() && SideOk(bids, Buy)
      modifies this, ledger
      ensures ledger.Valid()
      ensures var s := SweepResult(old(bids), Buy, taker);
        bids == s.rest && trades == s.trades && left == s.left
      ensures asks == old(asks) && index == old(index)
      ensures ledger.Snapshot() == RecordAll(old(ledger.Snapshot()), trades)
    {
      ghost var s0 := SweepResult(bids, Buy, taker);
      ghost var accounts0 := ledger.Snapshot();
      var marketOrder := taker;
      trades := [];
      while bids != map[] && marketOrder.quantity > 0
        invariant ledger.Valid() && SideOk(bids, Buy)
        invariant s0 == SweepAfter(trades, SweepResult(bids, Buy, marketOrder))
        invariant asks == old(asks) && index == old(index)
        invariant ledger.Snapshot() == RecordAll(accounts0, trades)
        decreases marketOrder.quantity
      {
        var t := TakeFront(Buy, marketOrder);
        marketOrder := marketOrder.WithQuantity(marketOrder.quantity - t.quantity);
        SweepAfterStep(trades, t, SweepResult(bids, Buy, marketOrder));
        RecordAllStep(accounts0, trades, t);
        trades := trades + [t];
      }
      left := marketOrder.quantity;
      assert trades + [] == trades;
    }

    /** `addOrder`: a market order sweeps the opposite side and is not
        kept; a limit order joins the back of the queue at its price, is
        indexed under its id, and the book is matched. Every trade reaches
        the ledger, in order. */
    method AddOrder(o: Order) returns (trades: seq<Trade>, unfilled: int)
      requires Valid() && Admissible(o)
      modifies this, ledger
      ensures Valid()
      ensures Outcome(State(), trades, unfilled) == Add(old(State()), o)
      ensures ledger.Snapshot() == RecordAll(old(ledger.Snapshot()), trades)
    {
      AddKeepsBook(State(), o);
      if o.kind == Market {
        if o.side == Buy {
          trades, unfilled := SweepAsks(o);
        } else {
          trades, unfilled := SweepBids(o);
        }
      } else {
        RestOrder(o);
        trades := MatchOrders();
        unfilled := 0;
      }
    }

    /** The limit branch of `addOrder` before matching: the order joins
        the back of the queue at its price, the level being created when
        there is none, and is indexed under its id. */
    method RestOrder(o: Order)
      requires Valid() && o.kind == Limit && o.quantity > 0 && o.price > 0
      modifies this
      ensures SideOk(bids, Buy) && SideOk(asks, Sell) && ledger.Valid()
      ensures State() == Rest(old(State()), o).(index := old(index)[o.id := o])
    {
      RestKeepsSides(State(), o);
      if o.side == Buy {
        var level := if o.price in bids then bids[o.price] else [];
        bids := bids[o.price := level + [o]];
      } else {
        var level := if o.price in asks then asks[o.price] else [];
        asks := asks[o.price := level + [o]];
      }
      index := index[o.id := o];
    }

    /** `cancelOrder`: an unknown id fails; otherwise the order's level is
        rebuilt without it, erased when left empty, and the id leaves the
        index. */
    method CancelOrder(id: int) returns (ok: bool)
      requires Valid()
      modifies this
      ensures Valid()
      ensures (State(), ok) == Cancel(old(State()), id)
    {
      CancelKeepsBook(State(), id);
      if id !in index {
        return false;
      }
      var ord := index[id];
      if ord.side == Buy {
        if ord.price in bids {
          var kept := Withdraw(bids[ord.price], id);
          ghost var before := bids;
          bids := bids[ord.price := kept];
          if kept == [] {
            bids := bids - {ord.price};
            assert bids == before - {ord.price};
          }
        }
      } else {
        if ord.price in asks {
          var kept := Withdraw(asks[ord.price], id);
          ghost var before := asks;
          asks := asks[ord.price := kept];
          if kept == [] {
            asks := asks - {ord.price};
            assert asks == before - {ord.price};
          }
        }
      }
      index := index - {id};
      ok := true;
    }

    /** `modifyOrder`: an unknown id fails; otherwise the order is
        cancelled and added again as a copy with the new quantity and price. */
    method ModifyOrder(id: int, newQty: int, newPrice: int) returns (ok: bool, trades: seq<Trade>)
      requires Valid() && newQty > 0 && newPrice > 0
      modifies this, ledger
      ensures Valid()
      ensures (Outcome(State(), trades, 0), ok) == Modify(old(State()), id, newQty, newPrice)
      ensures ledger.Snapshot() == RecordAll(old(ledger.Snapshot()), trades)
    {
      if id !in index {
        return false, [];
      }
      var ord := index[id];
      ok := CancelOrder(id);
      ord := ord.WithQuantity(newQty);
      ord := ord.WithPrice(newPrice);
      var unfilled;
      trades, unfilled := AddOrder(ord);
    }

    /** `printMarketDepth`: the ask levels from the lowest price up, the bid
        levels from the highest price down, and the ledger's report marked at
        the market price (-1 when the book is empty). */
    method MarketDepth() returns (askRows: seq<DepthRow>, bidRows: seq<DepthRow>, pnl: seq<PnLRow>)
      requires Valid()
      ensures askRows == Depth(asks, Sell) && bidRows == Depth(bids, Buy)
      ensures var mark := if CurrentMarketPrice().Some? then CurrentMarketPrice().value else -1.0;
        forall r :: r in pnl ==> r.trader in ledger.realized && r == RowOf(ledger.Snapshot(), r.trader, mark)
      ensures Traders(pnl) == ledger.realized.Keys && |pnl| == |ledger.realized|
      ensures TotalPnL(pnl) == 0.0
    {
      askRows := ListDepth(asks, Sell);
      bidRows := ListDepth(bids, Buy);
      var price := CurrentMarketPrice();
      var mark := if price.Some? then price.value else -1.0;
      pnl := ledger.Report(mark);
    }

    /** One round of `matchOrders` on a crossed book: the two best fronts
        trade the smaller of their quantities at the sell order's price, the
        trade is recorded, both fronts are filled and both ids leave the
        index. */
    method TradeFronts(bestBuy: int, bestSell: int) returns (t: Trade)
      requires ledger.Valid() && SideOk(bids, Buy) && SideOk(asks, Sell)
      requires bids != map[] && asks != map[]
      requires bestBuy == Best(bids, Buy) && bestSell == Best(asks, Sell) && bestBuy >= bestSell
      modifies this, ledger
      ensures ledger.Valid() && SideOk(bids, Buy) && SideOk(asks, Sell)
      ensures 0 <= SideQty(bids) < SideQty(old(bids))
      ensures MatchResult(old(bids), old(asks)) == After([t], MatchResult(bids, asks))
      ensures index == old(index) - {t.buyOrder} - {t.sellOrder}
      ensures ledger.Snapshot() == Record(old(ledger.Snapshot()), t.buyer, t.seller, t.quantity, t.price)
    {
      var buy, sell := bids[bestBuy][0], asks[bestSell][0];
      var traded := Min(buy.quantity, sell.quantity);
      var price := sell.price;
      MatchStep(bids, asks);
      ghost var bids', asks' := Consume(bids, bestBuy, traded), Consume(asks, bestSell, traded);
      FillFront(Buy, bestBuy, traded);
      FillFront(Sell, bestSell, traded);
      assert bids == bids' && asks == asks';
      ledger.RecordTrade(buy.trader, sell.trader, traded, price);
      index := index - {buy.id};
      index := index - {sell.id};
      t := Trade(buy.id, sell.id, buy.trader, sell.trader, traded, price);
    }

    /** `matchOrders`: trades the two best fronts while the book is crossed. */
    method MatchOrders() returns (trades: seq<Trade>)
      requires ledger.Valid() && SideOk(bids, Buy) && SideOk(asks, Sell)
      modifies this, ledger
      ensures ledger.Valid()
      ensures var m := MatchResult(old(bids), old(asks));
        bids == m.bids && asks == m.asks && trades == m.trades
      ensures index == old(index) - Ids(trades)
      ensures ledger.Snapshot() == RecordAll(old(ledger.Snapshot()), trades)
    {
      ghost var m0 := MatchResult(bids, asks);
      ghost var index0, accounts0 := index, ledger.Snapshot();
      trades := [];
      while bids != map[] && asks != map[]
        invariant ledger.Valid() && SideOk(bids, Buy) && SideOk(asks, Sell)
        invariant m0 == After(trades, MatchResult(bids, asks))
        invariant index == index0 - Ids(trades)
        invariant ledger.Snapshot() == RecordAll(accounts0, trades)
        decreases SideQty(bids)
      {
        var bestBuy, bestSell := Best(bids, Buy), Best(asks, Sell);
        if bestBuy >= bestSell {
          var t := TradeFronts(bestBuy, bestSell);
          IndexDrop(index0, trades, t);
          assert (trades + [t])[..|trades|] == trades;
          AfterStep(trades, t, MatchResult(bids, asks));
          trades := trades + [t];
        } else {
          break;
        }
      }
      assert trades + [] == trades;
    }
  }

  /** Dropping the ids of one more trade from the index. */
  lemma IndexDrop(index: map<int, Order>, trades: seq<Trade>, t: Trade)
    ensures index - Ids(trades) - {t.buyOrder} - {t.sellOrder} == index - Ids(trades + [t])
  {
    assert (trades + [t])[..|trades|] == trades;
  }
}
