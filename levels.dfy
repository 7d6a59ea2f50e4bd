/** Price levels: one side of the book is a map from price to a FIFO queue of
    resting orders. The bid side's best price is its greatest key, the ask
    side's its least key. */
module Levels {
  import opened Orders
  import opened Sums

  /** A FIFO queue of orders at one price; the front is index 0. */
  type Level = seq<Order>

  /** One side of the book: price to queue. */
  type Ladder = map<int, Level>

  /** Total quantity queued at one level. */
  function LevelQty(level: Level): int
  {
    if level == [] then 0 else level[0].quantity + LevelQty(level[1..])
  }

  lemma {:induction false} LevelQtyAppend(a: Level, b: Level)
    ensures LevelQty(a + b) == LevelQty(a) + LevelQty(b)
  {
    if a != [] {
      assert (a + b)[0] == a[0];
      assert (a + b)[1..] == a[1..] + b;
      LevelQtyAppend(a[1..], b);
    } else {
      assert a + b == b;
    }
  }

  /** What every queued order satisfies: a limit order on this side, queued
      under its own price, with quantity left, at a positive price. */
  predicate Resting(o: Order, price: int, side: Side)
  {
    o.kind == Limit && o.side == side && o.price == price && o.quantity > 0 && price > 0
  }

  /** A level is never empty and holds only orders resting at its price. */
  ghost predicate LevelOk(level: Level, price: int, side: Side)
  {
    level != [] && forall o :: o in level ==> Resting(o, price, side)
  }

  ghost predicate SideOk(ladder: Ladder, side: Side)
  {
    forall p :: p in ladder ==> LevelOk(ladder[p], p, side)
  }

  /** A level of positive orders holds a positive total, at least its front's. */
  lemma {:induction false} LevelQtyPositive(level: Level)
    requires forall o :: o in level ==> o.quantity > 0
    ensures LevelQty(level) >= 0
    ensures level != [] ==> LevelQty(level) >= level[0].quantity > 0
  {
    if level != [] {
      assert forall o :: o in level[1..] ==> o in level;
      LevelQtyPositive(level[1..]);
    }
  }

  /** `m` is at least every key. */
  predicate IsUpper(m: int, keys: set<int>)
  {
    forall k :: k in keys ==> k <= m
  }

  /** `m` is at most every key. */
  predicate IsLower(m: int, keys: set<int>)
  {
    forall k :: k in keys ==> m <= k
  }

  /** A finite non-empty set of prices has a greatest element. */
  lemma {:induction false} HasMax(keys: set<int>)
    requires keys != {}
    ensures exists m :: m in keys && IsUpper(m, keys)
    decreases |keys|
  {
    if forall k :: k !in keys {
      assert false;
    }
    var x :| x in keys;
    var rest := keys - {x};
    if rest == {} {
      assert IsUpper(x, keys) by {
        forall k | k in keys ensures k <= x {
          assert k !in rest;
        }
      }
    } else {
      HasMax(rest);
      var m :| m in rest && IsUpper(m, rest);
      var top := if x > m then x else m;
      assert IsUpper(top, keys) by {
        forall k | k in keys ensures k <= top {
          if k != x {
            assert k in rest;
          }
        }
      }
    }
  }

  /** A finite non-empty set of prices has a least element. */
  lemma {:induction false} HasMin(keys: set<int>)
    requires keys != {}
    ensures exists m :: m in keys && IsLower(m, keys)
    decreases |keys|
  {
    if forall k :: k !in keys {
      assert false;
    }
    var x :| x in keys;
    var rest := keys - {x};
    if rest == {} {
      assert IsLower(x, keys) by {
        forall k | k in keys ensures x <= k {
          assert k !in rest;
        }
      }
    } else {
      HasMin(rest);
      var m :| m in rest && IsLower(m, rest);
      var bottom := if x < m then x else m;
      assert IsLower(bottom, keys) by {
        forall k | k in keys ensures bottom <= k {
          if k != x {
            assert k in rest;
          }
        }
      }
    }
  }

  /** The greatest key: `rbegin()` of an ordered map. */
  function MaxKey(keys: set<int>): (m: int)
    requires keys != {}
    ensures m in keys && forall k :: k in keys ==> k <= m
  {
    HasMax(keys);
    var m :| m in keys && IsUpper(m, keys);
    m
  }

  /** The least key: `begin()` of an ordered map. */
  function MinKey(keys: set<int>): (m: int)
    requires keys != {}
    ensures m in keys && forall k :: k in keys ==> m <= k
  {
    HasMin(keys);
    var m :| m in keys && IsLower(m, keys);
    m
  }

  /** `p` is at least as good as `q` for resting orders of `side`: higher for
      bids, lower for asks. */
  predicate AtLeastAsGood(p: int, q: int, side: Side)
  {
    if side == Buy then p >= q else p <= q
  }

  /** The best price of a non-empty side. */
  function Best(ladder: Ladder, side: Side): (p: int)
    requires ladder != map[]
    ensures p in ladder
    ensures forall q :: q in ladder ==> AtLeastAsGood(p, q, side)
  {
    assert ladder.Keys != {} by {
      if ladder.Keys == {} {
        assert false;
      }
    }
    if side == Buy then MaxKey(ladder.Keys) else MinKey(ladder.Keys)
  }

  /** One fill of `traded` against the front of a level: the front is popped,
      and when it is not exhausted it is pushed back at the END of the level
      with the quantity that is left. */
  function Fill(level: Level, traded: int): (r: Level)
    requires level != [] && traded <= level[0].quantity
    ensures LevelQty(r) == LevelQty(level) - traded
    ensures |r| >= |level| - 1 && r[..|level| - 1] == level[1..]
    ensures level[0].quantity == traded ==> r == level[1..]
    ensures level[0].quantity > traded ==>
      |r| == |level| && r[|level| - 1] == level[0].WithQuantity(level[0].quantity - traded)
  {
    var front, rest := level[0], level[1..];
    if front.quantity > traded then
      var back := front.WithQuantity(front.quantity - traded);
      LevelQtyAppend(rest, [back]);
      rest + [back]
    else
      rest
  }

  /** With a positive fill, every order left at the level is still resting. */
  lemma FillKeepsLevel(level: Level, traded: int, price: int, side: Side)
    requires LevelOk(level, price, side) && 0 < traded <= level[0].quantity
    ensures forall o :: o in Fill(level, traded) ==> Resting(o, price, side)
  {
    assert forall o :: o in level[1..] ==> o in level;
    if level[0].quantity > traded {
      var back := level[0].WithQuantity(level[0].quantity - traded);
      assert level[0] in level;
      assert Fill(level, traded) == level[1..] + [back];
    }
  }

  /** A fill at one price of a side; a level left empty is erased. */
  function Consume(ladder: Ladder, price: int, traded: int): (r: Ladder)
    requires price in ladder && ladder[price] != [] && traded <= ladder[price][0].quantity
    ensures r.Keys <= ladder.Keys && r.Keys >= ladder.Keys - {price}
    ensures forall p :: p in r && p != price ==> r[p] == ladder[p]
    ensures price in r <==> Fill(ladder[price], traded) != []
    ensures price in r ==> r[price] == Fill(ladder[price], traded)
  {
    var level := Fill(ladder[price], traded);
    if level == [] then ladder - {price} else ladder[price := level]
  }

  /** A positive fill keeps a well-formed side well formed: no empty level
      survives and every order left keeps its price, side and a positive
      quantity. */
  lemma ConsumeKeepsSide(ladder: Ladder, price: int, traded: int, side: Side)
    requires SideOk(ladder, side) && price in ladder
    requires 0 < traded <= ladder[price][0].quantity
    ensures SideOk(Consume(ladder, price, traded), side)
  {
    FillKeepsLevel(ladder[price], traded, price, side);
  }

  /** The quantity resting at each price. */
  ghost function LevelTotals(ladder: Ladder): (m: map<int, int>)
    ensures m.Keys == ladder.Keys
  {
    map p | p in ladder :: LevelQty(ladder[p])
  }

  /** The total quantity resting on one side. */
  ghost function SideQty(ladder: Ladder): int
  {
    MapSum(LevelTotals(ladder))
  }

  /** A fill of `traded` takes exactly `traded` off the side's total. */
  lemma ConsumeQty(ladder: Ladder, price: int, traded: int)
    requires price in ladder && ladder[price] != [] && traded <= ladder[price][0].quantity
    ensures SideQty(Consume(ladder, price, traded)) == SideQty(ladder) - traded
  {
    var level := Fill(ladder[price], traded);
    var totals := LevelTotals(ladder);
    if level == [] {
      assert LevelTotals(ladder - {price}) == totals - {price};
      MapSumRemove(totals, price);
    } else {
      assert LevelTotals(ladder[price := level]) == totals[price := LevelQty(level)];
      MapSumUpdate(totals, price, LevelQty(level));
    }
  }

  /** A well-formed side holds a positive total exactly when it is not empty. */
  lemma SideQtyPositive(ladder: Ladder, side: Side)
    requires SideOk(ladder, side)
    ensures SideQty(ladder) >= 0
    ensures ladder != map[] ==> SideQty(ladder) > 0
    ensures ladder == map[] ==> SideQty(ladder) == 0
  {
    var totals := LevelTotals(ladder);
    forall p | p in totals
      ensures totals[p] > 0
    {
      LevelQtyPositive(ladder[p]);
    }
    MapSumPositive(totals);
    if ladder != map[] {
      assert totals != map[] by {
        if totals == map[] {
          assert false;
        }
      }
    }
  }

  /** One level of a well-formed side holds no more than the whole side, and
      at least its front order. */
  lemma LevelWithinSide(ladder: Ladder, side: Side, p: int)
    requires SideOk(ladder, side) && p in ladder
    ensures SideQty(ladder) >= LevelQty(ladder[p]) >= ladder[p][0].quantity > 0
  {
    var totals := LevelTotals(ladder);
    forall k | k in totals - {p}
      ensures (totals - {p})[k] > 0
    {
      LevelQtyPositive(ladder[k]);
    }
    MapSumRemove(totals, p);
    MapSumPositive(totals - {p});
    LevelQtyPositive(ladder[p]);
  }

  /** A limit order joins the back of the queue at its own price, creating
      the level when there is none. */
  function Enqueue(ladder: Ladder, o: Order): (r: Ladder)
    ensures r.Keys == ladder.Keys + {o.price}
    ensures forall p :: p in ladder && p != o.price ==> r[p] == ladder[p]
    ensures o.price in ladder ==> r[o.price] == ladder[o.price] + [o]
    ensures o.price !in ladder ==> r[o.price] == [o]
  {
    var level := if o.price in ladder then ladder[o.price] else [];
    ladder[o.price := level + [o]]
  }

  /** Enqueuing an order that may rest on this side keeps the side well formed
      and adds its quantity to the side's total. */
  lemma EnqueueKeepsSide(ladder: Ladder, o: Order, side: Side)
    requires SideOk(ladder, side) && Resting(o, o.price, side)
    ensures SideOk(Enqueue(ladder, o), side)
    ensures SideQty(Enqueue(ladder, o)) == SideQty(ladder) + o.quantity
  {
    var level := if o.price in ladder then ladder[o.price] else [];
    LevelQtyAppend(level, [o]);
    SideQtySet(ladder, o.price, level + [o]);
  }

  /** Replacing the level at `p` replaces its total in the side's total. */
  lemma SideQtySet(ladder: Ladder, p: int, level: Level)
    ensures SideQty(ladder[p := level]) == SideQty(ladder) - (if p in ladder then LevelQty(ladder[p]) else 0) + LevelQty(level)
  {
    var totals := LevelTotals(ladder);
    assert LevelTotals(ladder[p := level]) == totals[p := LevelQty(level)];
    MapSumUpdate(totals, p, LevelQty(level));
  }

  /** The level with every order of id `id` filtered out, the others in their
      original order. */
  function Without(level: Level, id: int): (r: Level)
    ensures forall o :: o in r <==> o in level && o.id != id
    ensures |r| <= |level|
  {
    if level == [] then []
    else
      var last := level[|level| - 1];
      Without(level[..|level| - 1], id) + (if last.id != id then [last] else [])
  }

  /** Filtering works piecewise, so it keeps the relative order of the orders
      it keeps. */
  lemma {:induction false} WithoutAppend(a: Level, b: Level, id: int)
    ensures Without(a + b, id) == Without(a, id) + Without(b, id)
    decreases |b|
  {
    if b == [] {
      assert a + b == a;
    } else {
      var b' := b[..|b| - 1];
      assert (a + b)[..|a + b| - 1] == a + b';
      WithoutAppend(a, b', id);
    }
  }

  /** Filtering an id that is not queued changes nothing. */
  lemma {:induction false} WithoutAbsent(level: Level, id: int)
    requires forall i :: 0 <= i < |level| ==> level[i].id != id
    ensures Without(level, id) == level
  {
    if level != [] {
      var init := level[..|level| - 1];
      WithoutAbsent(init, id);
      assert init + [level[|level| - 1]] == level;
    }
  }

  /** The loop of `cancelOrder` that drains a level into a new queue, keeping
      every order whose id differs. */
  method Withdraw(level: Level, id: int) returns (kept: Level)
    ensures kept == Without(level, id)
    ensures forall o :: o in kept <==> o in level && o.id != id
  {
    kept := [];
    var i := 0;
    while i < |level|
      invariant 0 <= i <= |level|
      invariant kept == Without(level[..i], id)
    {
      assert level[..i + 1][..i] == level[..i];
      if level[i].id != id {
        kept := kept + [level[i]];
      }
      i := i + 1;
    }
    assert level[..|level|] == level;
  }

  /** One line of the depth listing: a price and the number of orders there. */
  datatype DepthRow = DepthRow(price: int, orders: nat)

  /** The depth listing of one side, best price first, skipping empty levels
      as the listing loop does. */
  function Depth(ladder: Ladder, side: Side): (rows: seq<DepthRow>)
    ensures forall i :: 0 <= i < |rows| ==> rows[i].price in ladder && rows[i].orders == |ladder[rows[i].price]| > 0
    decreases |ladder|
  {
    if ladder == map[] then []
    else
      var p := Best(ladder, side);
      var rest := ladder - {p};
      assert |rest.Keys| < |ladder.Keys| by {
        assert rest.Keys == ladder.Keys - {p};
      }
      var rows := Depth(rest, side);
      if ladder[p] == [] then rows else [DepthRow(p, |ladder[p]|)] + rows
  }

  /** The prices listed. */
  function Listed(rows: seq<DepthRow>): set<int>
  {
    if rows == [] then {} else {rows[0].price} + Listed(rows[1..])
  }

  /** The listing loop: the levels are visited best price first and every
      non-empty one gets a row. */
  method ListDepth(ladder: Ladder, side: Side) returns (rows: seq<DepthRow>)
    ensures rows == Depth(ladder, side)
  {
    rows := [];
    var rest := ladder;
    while rest != map[]
      invariant rows + Depth(rest, side) == Depth(ladder, side)
      decreases |rest|
    {
      var p := Best(rest, side);
      var next := rest - {p};
      assert |next.Keys| < |rest.Keys| by {
        assert next.Keys == rest.Keys - {p};
      }
      if rest[p] != [] {
        rows := rows + [DepthRow(p, |rest[p]|)];
      }
      rest := next;
    }
    assert rows + [] == rows;
  }

  /** Every non-empty level is listed, and nothing else. */
  lemma {:induction false} DepthComplete(ladder: Ladder, side: Side)
    ensures forall p :: p in Listed(Depth(ladder, side)) <==> p in ladder && ladder[p] != []
    decreases |ladder|
  {
    if ladder != map[] {
      var p := Best(ladder, side);
      var rest := ladder - {p};
      assert rest.Keys == ladder.Keys - {p};
      DepthComplete(rest, side);
    }
  }

  /** The listing runs from the best price to the worst, each price once. */
  lemma {:induction false} DepthOrdered(ladder: Ladder, side: Side)
    ensures forall i, j :: 0 <= i < j < |Depth(ladder, side)| ==>
      AtLeastAsGood(Depth(ladder, side)[i].price, Depth(ladder, side)[j].price, side) &&
      Depth(ladder, side)[i].price != Depth(ladder, side)[j].price
    decreases |ladder|
  {
    if ladder != map[] {
      var p := Best(ladder, side);
      var rest := ladder - {p};
      assert rest.Keys == ladder.Keys - {p};
      DepthOrdered(rest, side);
      var rows := Depth(rest, side);
      assert forall j :: 0 <= j < |rows| ==> rows[j].price in rest;
    }
  }
}
