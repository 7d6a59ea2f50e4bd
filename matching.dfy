/** Matching: what the crossing loop of a limit order and the sweep of a
    market order do to the two sides of the book, as functions on values.
    The book's methods are proved to compute exactly these. */
module Matching {
  import opened Orders
  import opened Sums
  import opened Levels

  /** Every bid price is below every ask price. */
  ghost predicate Uncrossed(bids: Ladder, asks: Ladder)
  {
    forall p, q :: p in bids && q in asks ==> p < q
  }

  /** For two non-empty sides, being uncrossed is a comparison of the two
      best prices, which is the test the matching loop makes. */
  lemma UncrossedBest(bids: Ladder, asks: Ladder)
    requires bids != map[] && asks != map[]
    ensures Uncrossed(bids, asks) <==> Best(bids, Buy) < Best(asks, Sell)
  {
    var bp, ap := Best(bids, Buy), Best(asks, Sell);
    if bp < ap {
      forall p, q | p in bids && q in asks
        ensures p < q
      {
        assert p <= bp && ap <= q;
      }
    }
  }

  /** Both sides after matching, and the trades made, first trade first. */
  datatype Match = Match(bids: Ladder, asks: Ladder, trades: seq<Trade>)

  /** A match that continues one whose trades `done` have already been made. */
  function After(done: seq<Trade>, m: Match): Match
  {
    Match(m.bids, m.asks, done + m.trades)
  }

  /** Moving one trade from the remaining match to the trades done. */
  lemma AfterStep(done: seq<Trade>, t: Trade, m: Match)
    ensures After(done, After([t], m)) == After(done + [t], m)
  {
    assert done + ([t] + m.trades) == (done + [t]) + m.trades;
  }

  /** `matchOrders`: while both sides are non-empty and the best bid is at
      least the best ask, the two front orders trade the smaller of their
      quantities at the sell order's price; each front is then filled. */
  ghost function MatchResult(bids: Ladder, asks: Ladder): Match
    requires SideOk(bids, Buy) && SideOk(asks, Sell)
    decreases SideQty(bids)
  {
    if bids == map[] || asks == map[] then Match(bids, asks, [])
    else
      var bp, ap := Best(bids, Buy), Best(asks, Sell);
      if bp < ap then Match(bids, asks, [])
      else
        var b, s := bids[bp][0], asks[ap][0];
        var q := Min(b.quantity, s.quantity);
        assert b in bids[bp] && s in asks[ap];
        ConsumeKeepsSide(bids, bp, q, Buy);
        ConsumeKeepsSide(asks, ap, q, Sell);
        ConsumeQty(bids, bp, q);
        SideQtyPositive(Consume(bids, bp, q), Buy);
        var next := MatchResult(Consume(bids, bp, q), Consume(asks, ap, q));
        Match(next.bids, next.asks, [Trade(b.id, s.id, b.trader, s.trader, q, s.price)] + next.trades)
  }

  /** One round of a crossed book: the two fronts trade a positive quantity
      that neither exceeds, both sides stay well formed, the bid side's total
      strictly drops, and matching goes on from the filled sides. */
  lemma MatchStep(bids: Ladder, asks: Ladder)
    requires SideOk(bids, Buy) && SideOk(asks, Sell)
    requires bids != map[] && asks != map[] && Best(bids, Buy) >= Best(asks, Sell)
    ensures var bp, ap := Best(bids, Buy), Best(asks, Sell);
      var q := Min(bids[bp][0].quantity, asks[ap][0].quantity);
      && 0 < q <= bids[bp][0].quantity && q <= asks[ap][0].quantity
      && SideOk(Consume(bids, bp, q), Buy) && SideOk(Consume(asks, ap, q), Sell)
      && 0 <= SideQty(Consume(bids, bp, q)) < SideQty(bids)
      && MatchResult(bids, asks) ==
         After([Trade(bids[bp][0].id, asks[ap][0].id, bids[bp][0].trader, asks[ap][0].trader, q, asks[ap][0].price)],
               MatchResult(Consume(bids, bp, q), Consume(asks, ap, q)))
  {
    var bp, ap := Best(bids, Buy), Best(asks, Sell);
    var q := Min(bids[bp][0].quantity, asks[ap][0].quantity);
    assert bids[bp][0] in bids[bp] && asks[ap][0] in asks[ap];
    ConsumeKeepsSide(bids, bp, q, Buy);
    ConsumeKeepsSide(asks, ap, q, Sell);
    ConsumeQty(bids, bp, q);
    SideQtyPositive(Consume(bids, bp, q), Buy);
  }

  /** Matching keeps both sides well formed and never creates a level. */
  lemma {:induction false} MatchKeepsSides(bids: Ladder, asks: Ladder)
    requires SideOk(bids, Buy) && SideOk(asks, Sell)
    ensures SideOk(MatchResult(bids, asks).bids, Buy) && SideOk(MatchResult(bids, asks).asks, Sell)
    ensures MatchResult(bids, asks).bids.Keys <= bids.Keys && MatchResult(bids, asks).asks.Keys <= asks.Keys
    decreases SideQty(bids)
  {
    if bids != map[] && asks != map[] && Best(bids, Buy) >= Best(asks, Sell) {
      var bp, ap := Best(bids, Buy), Best(asks, Sell);
      var q := Min(bids[bp][0].quantity, asks[ap][0].quantity);
      assert bids[bp][0] in bids[bp] && asks[ap][0] in asks[ap];
      ConsumeKeepsSide(bids, bp, q, Buy);
      ConsumeKeepsSide(asks, ap, q, Sell);
      ConsumeQty(bids, bp, q);
      SideQtyPositive(Consume(bids, bp, q), Buy);
      MatchKeepsSides(Consume(bids, bp, q), Consume(asks, ap, q));
    }
  }

  /** When matching stops the book is uncrossed. */
  lemma {:induction false} MatchUncrosses(bids: Ladder, asks: Ladder)
    requires SideOk(bids, Buy) && SideOk(asks, Sell)
    ensures Uncrossed(MatchResult(bids, asks).bids, MatchResult(bids, asks).asks)
    decreases SideQty(bids)
  {
    if bids != map[] && asks != map[] {
      var bp, ap := Best(bids, Buy), Best(asks, Sell);
      if bp < ap {
        UncrossedBest(bids, asks);
      } else {
        var q := Min(bids[bp][0].quantity, asks[ap][0].quantity);
        assert bids[bp][0] in bids[bp] && asks[ap][0] in asks[ap];
        ConsumeKeepsSide(bids, bp, q, Buy);
        ConsumeKeepsSide(asks, ap, q, Sell);
        ConsumeQty(bids, bp, q);
        SideQtyPositive(Consume(bids, bp, q), Buy);
        MatchUncrosses(Consume(bids, bp, q), Consume(asks, ap, q));
      }
    }
  }

  /** A book that is already uncrossed does not trade. */
  lemma MatchUncrossedIsIdle(bids: Ladder, asks: Ladder)
    requires SideOk(bids, Buy) && SideOk(asks, Sell) && Uncrossed(bids, asks)
    ensures MatchResult(bids, asks) == Match(bids, asks, [])
  {
    if bids != map[] && asks != map[] {
      UncrossedBest(bids, asks);
    }
  }

  /** Each side loses exactly the volume traded. */
  lemma {:induction false} MatchVolume(bids: Ladder, asks: Ladder)
    requires SideOk(bids, Buy) && SideOk(asks, Sell)
    ensures SideQty(MatchResult(bids, asks).bids) == SideQty(bids) - Volume(MatchResult(bids, asks).trades)
    ensures SideQty(MatchResult(bids, asks).asks) == SideQty(asks) - Volume(MatchResult(bids, asks).trades)
    decreases SideQty(bids)
  {
    if bids != map[] && asks != map[] && Best(bids, Buy) >= Best(asks, Sell) {
      var bp, ap := Best(bids, Buy), Best(asks, Sell);
      var q := Min(bids[bp][0].quantity, asks[ap][0].quantity);
      assert bids[bp][0] in bids[bp] && asks[ap][0] in asks[ap];
      ConsumeKeepsSide(bids, bp, q, Buy);
      ConsumeKeepsSide(asks, ap, q, Sell);
      ConsumeQty(bids, bp, q);
      ConsumeQty(asks, ap, q);
      SideQtyPositive(Consume(bids, bp, q), Buy);
      MatchVolume(Consume(bids, bp, q), Consume(asks, ap, q));
    }
  }

  /** Every trade is for a positive quantity, between a resting bid and a
      resting ask of the book, at a price of the ask side that is no higher
      than the best bid. */
  lemma {:induction false} MatchTrades(bids: Ladder, asks: Ladder)
    requires SideOk(bids, Buy) && SideOk(asks, Sell)
    ensures forall t :: t in MatchResult(bids, asks).trades ==>
      t.quantity > 0 && t.price in asks && bids != map[] && t.price <= Best(bids, Buy)
    decreases SideQty(bids)
  {
    if bids != map[] && asks != map[] && Best(bids, Buy) >= Best(asks, Sell) {
      var bp, ap := Best(bids, Buy), Best(asks, Sell);
      var q := Min(bids[bp][0].quantity, asks[ap][0].quantity);
      var bids', asks' := Consume(bids, bp, q), Consume(asks, ap, q);
      assert bids[bp][0] in bids[bp] && asks[ap][0] in asks[ap];
      ConsumeKeepsSide(bids, bp, q, Buy);
      ConsumeKeepsSide(asks, ap, q, Sell);
      ConsumeQty(bids, bp, q);
      SideQtyPositive(bids', Buy);
      MatchTrades(bids', asks');
      if bids' != map[] {
        assert Best(bids', Buy) in bids;
      }
    }
  }

  /** What is left of a market order after sweeping one side: the side, the
      trades made, first trade first, and the quantity not filled. */
  datatype Sweep = Sweep(rest: Ladder, trades: seq<Trade>, left: int)

  /** The trade of `q` between an incoming order and the resting order
      `maker` of the opposite side, at the resting order's price. */
  function Execution(taker: Order, maker: Order, q: int): (t: Trade)
    ensures t.quantity == q && t.price == maker.price
    ensures maker.side == Sell ==> t.buyOrder == taker.id && t.buyer == taker.trader && t.sellOrder == maker.id && t.seller == maker.trader
    ensures maker.side == Buy ==> t.buyOrder == maker.id && t.buyer == maker.trader && t.sellOrder == taker.id && t.seller == taker.trader
  {
    if maker.side == Sell then Trade(taker.id, maker.id, taker.trader, maker.trader, q, maker.price)
    else Trade(maker.id, taker.id, maker.trader, taker.trader, q, maker.price)
  }

  /** The market-order loop: while `side` (the side opposite the order) is
      not empty and the order's quantity is positive, the order trades the
      smaller of its quantity and the best level's front quantity, that front
      is filled, and the order's quantity goes down by the amount traded. */
  ghost function SweepResult(ladder: Ladder, side: Side, taker: Order): Sweep
    requires SideOk(ladder, side)
    decreases if taker.quantity > 0 then taker.quantity else 0
  {
    if ladder == map[] || taker.quantity <= 0 then Sweep(ladder, [], taker.quantity)
    else
      var p := Best(ladder, side);
      var maker := ladder[p][0];
      assert maker in ladder[p];
      var q := Min(taker.quantity, maker.quantity);
      ConsumeKeepsSide(ladder, p, q, side);
      var next := SweepResult(Consume(ladder, p, q), side, taker.WithQuantity(taker.quantity - q));
      Sweep(next.rest, [Execution(taker, maker, q)] + next.trades, next.left)
  }

  /** A sweep that continues one whose trades `done` have already been made. */
  function SweepAfter(done: seq<Trade>, s: Sweep): Sweep
  {
    Sweep(s.rest, done + s.trades, s.left)
  }

  /** Moving one trade from the remaining sweep to the trades done. */
  lemma SweepAfterStep(done: seq<Trade>, t: Trade, s: Sweep)
    ensures SweepAfter(done, SweepAfter([t], s)) == SweepAfter(done + [t], s)
  {
    assert done + ([t] + s.trades) == (done + [t]) + s.trades;
  }

  /** One round of a sweep: the best level's front, resting on `side`, trades
      a positive quantity no larger than itself or than what remains, the
      side stays well formed, and the sweep goes on from the filled side. */
  lemma SweepStep(ladder: Ladder, side: Side, taker: Order)
    requires SideOk(ladder, side) && ladder != map[] && taker.quantity > 0
    ensures var p := Best(ladder, side);
      var maker := ladder[p][0];
      var q := Min(taker.quantity, maker.quantity);
      && 0 < q <= maker.quantity && maker.side == side
      && SideOk(Consume(ladder, p, q), side)
      && SweepResult(ladder, side, taker) ==
         SweepAfter([Execution(taker, maker, q)], SweepResult(Consume(ladder, p, q), side, taker.WithQuantity(taker.quantity - q)))
  {
    var p := Best(ladder, side);
    assert ladder[p][0] in ladder[p];
    ConsumeKeepsSide(ladder, p, Min(taker.quantity, ladder[p][0].quantity), side);
  }

  /** A sweep keeps the side well formed and never creates a level. */
  lemma {:induction false} SweepKeepsSide(ladder: Ladder, side: Side, taker: Order)
    requires SideOk(ladder, side)
    ensures SideOk(SweepResult(ladder, side, taker).rest, side)
    ensures SweepResult(ladder, side, taker).rest.Keys <= ladder.Keys
    decreases if taker.quantity > 0 then taker.quantity else 0
  {
    if ladder != map[] && taker.quantity > 0 {
      var p := Best(ladder, side);
      assert ladder[p][0] in ladder[p];
      var q := Min(taker.quantity, ladder[p][0].quantity);
      ConsumeKeepsSide(ladder, p, q, side);
      SweepKeepsSide(Consume(ladder, p, q), side, taker.WithQuantity(taker.quantity - q));
    }
  }

  /** A market order for a positive quantity fills the smaller of that
      quantity and everything resting on the other side; that much leaves the
      side, and the rest of the order is unfilled. A non-positive quantity
      trades nothing. */
  lemma {:induction false} SweepVolume(ladder: Ladder, side: Side, taker: Order)
    requires SideOk(ladder, side)
    ensures taker.quantity <= 0 ==> SweepResult(ladder, side, taker) == Sweep(ladder, [], taker.quantity)
    ensures taker.quantity > 0 ==>
      var s := SweepResult(ladder, side, taker);
      && Volume(s.trades) == Min(taker.quantity, SideQty(ladder))
      && s.left == taker.quantity - Volume(s.trades)
      && SideQty(s.rest) == SideQty(ladder) - Volume(s.trades)
    decreases if taker.quantity > 0 then taker.quantity else 0
  {
    if ladder == map[] {
      SideQtyPositive(ladder, side);
    } else if taker.quantity > 0 {
      var p := Best(ladder, side);
      var maker := ladder[p][0];
      var q := Min(taker.quantity, maker.quantity);
      LevelWithinSide(ladder, side, p);
      ConsumeKeepsSide(ladder, p, q, side);
      ConsumeQty(ladder, p, q);
      var ladder' := Consume(ladder, p, q);
      SweepVolume(ladder', side, taker.WithQuantity(taker.quantity - q));
      var next := SweepResult(ladder', side, taker.WithQuantity(taker.quantity - q));
      var trades := [Execution(taker, maker, q)] + next.trades;
      assert trades[1..] == next.trades;
      assert Volume(trades) == q + Volume(next.trades);
    }
  }

  /** A sweep stops only when the order is filled or the side is empty. */
  lemma SweepStops(ladder: Ladder, side: Side, taker: Order)
    requires SideOk(ladder, side) && taker.quantity > 0
    ensures SweepResult(ladder, side, taker).left == 0 || SweepResult(ladder, side, taker).rest == map[]
    ensures SweepResult(ladder, side, taker).left >= 0
  {
    var s := SweepResult(ladder, side, taker);
    SweepVolume(ladder, side, taker);
    SweepKeepsSide(ladder, side, taker);
    SideQtyPositive(s.rest, side);
  }

  /** Every trade of a sweep involves the incoming order on the other side
      of the resting order, and is for a positive quantity at a price of the
      side. */
  lemma {:induction false} SweepTrades(ladder: Ladder, side: Side, taker: Order)
    requires SideOk(ladder, side)
    ensures var s := SweepResult(ladder, side, taker);
      forall t :: t in s.trades ==>
        && t.quantity > 0 && t.price in ladder
        && (if side == Sell then t.buyOrder == taker.id && t.buyer == taker.trader
            else t.sellOrder == taker.id && t.seller == taker.trader)
    decreases if taker.quantity > 0 then taker.quantity else 0
  {
    if ladder != map[] && taker.quantity > 0 {
      var p := Best(ladder, side);
      var maker := ladder[p][0];
      assert maker in ladder[p];
      var q := Min(taker.quantity, maker.quantity);
      var ladder' := Consume(ladder, p, q);
      ConsumeKeepsSide(ladder, p, q, side);
      SweepTrades(ladder', side, taker.WithQuantity(taker.quantity - q));
      var next := SweepResult(ladder', side, taker.WithQuantity(taker.quantity - q));
      var trades := [Execution(taker, maker, q)] + next.trades;
      assert forall t :: t in trades ==> t == trades[0] || t in next.trades;
    }
  }

  /** A sweep consumes the side best price first: prices only get worse from
      one trade to the next. */
  lemma {:induction false} SweepBestFirst(ladder: Ladder, side: Side, taker: Order)
    requires SideOk(ladder, side)
    ensures var s := SweepResult(ladder, side, taker);
      forall i, j :: 0 <= i < j < |s.trades| ==> AtLeastAsGood(s.trades[i].price, s.trades[j].price, side)
    decreases if taker.quantity > 0 then taker.quantity else 0
  {
    if ladder != map[] && taker.quantity > 0 {
      var p := Best(ladder, side);
      var maker := ladder[p][0];
      assert maker in ladder[p];
      var q := Min(taker.quantity, maker.quantity);
      var ladder' := Consume(ladder, p, q);
      var taker' := taker.WithQuantity(taker.quantity - q);
      ConsumeKeepsSide(ladder, p, q, side);
      SweepBestFirst(ladder', side, taker');
      SweepTrades(ladder', side, taker');
      var next := SweepResult(ladder', side, taker');
      var trades := [Execution(taker, maker, q)] + next.trades;
      forall i, j | 0 <= i < j < |trades|
        ensures AtLeastAsGood(trades[i].price, trades[j].price, side)
      {
        assert trades[j] == next.trades[j - 1];
        if i > 0 {
          assert trades[i] == next.trades[i - 1];
        } else {
          assert trades[j] in next.trades;
        }
      }
    }
  }

  /** Every level a sweep leaves is no better than any price it traded at. */
  lemma {:induction false} SweepLeavesWorse(ladder: Ladder, side: Side, taker: Order)
    requires SideOk(ladder, side)
    ensures var s := SweepResult(ladder, side, taker);
      forall t, p :: t in s.trades && p in s.rest ==> AtLeastAsGood(t.price, p, side)
    decreases if taker.quantity > 0 then taker.quantity else 0
  {
    if ladder != map[] && taker.quantity > 0 {
      var p := Best(ladder, side);
      var maker := ladder[p][0];
      assert maker in ladder[p];
      var q := Min(taker.quantity, maker.quantity);
      var ladder' := Consume(ladder, p, q);
      var taker' := taker.WithQuantity(taker.quantity - q);
      ConsumeKeepsSide(ladder, p, q, side);
      SweepLeavesWorse(ladder', side, taker');
      SweepKeepsSide(ladder', side, taker');
      var next := SweepResult(ladder', side, taker');
      var trades := [Execution(taker, maker, q)] + next.trades;
      assert forall t :: t in trades ==> t == trades[0] || t in next.trades;
    }
  }
}
