/** The profit-and-loss ledger: per trader, the realized cash (in price ticks
    times units) and the net position in units. */
module Ledger {
  import opened Orders
  import opened Sums

  /** Moves `amount` from `debit` to `credit`: the debit is posted first, then
      the credit, each inserting a zero entry for a trader seen for the first
      time. */
  function Transfer(m: map<string, int>, debit: string, credit: string, amount: int): (r: map<string, int>)
    ensures r.Keys == m.Keys + {debit, credit}
    ensures forall k :: k in m && k != debit && k != credit ==> r[k] == m[k]
    ensures debit != credit ==> r[debit] == Get(m, debit) - amount && r[credit] == Get(m, credit) + amount
    ensures debit == credit ==> r[debit] == Get(m, debit)
  {
    Post(Post(m, debit, -amount), credit, amount)
  }

  /** A transfer neither creates nor destroys anything. */
  lemma TransferConserves(m: map<string, int>, debit: string, credit: string, amount: int)
    ensures MapSum(Transfer(m, debit, credit, amount)) == MapSum(m)
  {
    PostSum(m, debit, -amount);
    PostSum(Post(m, debit, -amount), credit, amount);
  }

  /** The two maps of the ledger, as values. */
  datatype Accounts = Accounts(realized: map<string, int>, holdings: map<string, int>)

  /** `recordTrade`: the buyer pays quantity * price to the seller, and the
      seller delivers quantity units to the buyer. */
  function Record(a: Accounts, buyer: string, seller: string, quantity: int, price: int): (r: Accounts)
    ensures r.realized.Keys == a.realized.Keys + {buyer, seller}
    ensures r.holdings.Keys == a.holdings.Keys + {buyer, seller}
    ensures buyer != seller ==>
      && r.realized[buyer] == Get(a.realized, buyer) - quantity * price
      && r.realized[seller] == Get(a.realized, seller) + quantity * price
      && r.holdings[buyer] == Get(a.holdings, buyer) + quantity
      && r.holdings[seller] == Get(a.holdings, seller) - quantity
    ensures buyer == seller ==>
      r.realized[buyer] == Get(a.realized, buyer) && r.holdings[buyer] == Get(a.holdings, buyer)
    ensures forall k :: k in a.realized && k != buyer && k != seller ==> r.realized[k] == a.realized[k]
    ensures forall k :: k in a.holdings && k != buyer && k != seller ==> r.holdings[k] == a.holdings[k]
  {
    Accounts(Transfer(a.realized, buyer, seller, quantity * price),
             Transfer(a.holdings, buyer, seller, -quantity))
  }

  /** Every trader with a position has a cash entry and vice versa, and both
      the cash and the units sum to zero over all traders. */
  ghost predicate Balanced(a: Accounts)
  {
    a.realized.Keys == a.holdings.Keys && MapSum(a.realized) == 0 && MapSum(a.holdings) == 0
  }

  lemma RecordKeepsBalanced(a: Accounts, buyer: string, seller: string, quantity: int, price: int)
    requires Balanced(a)
    ensures Balanced(Record(a, buyer, seller, quantity, price))
  {
    TransferConserves(a.realized, buyer, seller, quantity * price);
    TransferConserves(a.holdings, buyer, seller, -quantity);
  }

  /** The ledger after recording `trades` in order. */
  function RecordAll(a: Accounts, trades: seq<Trade>): Accounts
  {
    if trades == [] then a
    else
      var t := trades[|trades| - 1];
      Record(RecordAll(a, trades[..|trades| - 1]), t.buyer, t.seller, t.quantity, t.price)
  }

  /** Recording one more trade after a sequence of trades. */
  lemma RecordAllStep(a: Accounts, trades: seq<Trade>, t: Trade)
    ensures RecordAll(a, trades + [t]) == Record(RecordAll(a, trades), t.buyer, t.seller, t.quantity, t.price)
  {
    assert (trades + [t])[..|trades|] == trades;
  }

  /** Whatever trades are recorded, the ledger stays a zero-sum game. */
  lemma {:induction false} RecordAllKeepsBalanced(a: Accounts, trades: seq<Trade>)
    requires Balanced(a)
    ensures Balanced(RecordAll(a, trades))
  {
    if trades != [] {
      var t := trades[|trades| - 1];
      RecordAllKeepsBalanced(a, trades[..|trades| - 1]);
      RecordKeepsBalanced(RecordAll(a, trades[..|trades| - 1]), t.buyer, t.seller, t.quantity, t.price);
    }
  }

  /** One line of the profit-and-loss report. */
  datatype PnLRow = PnLRow(trader: string, realized: int, position: int, unrealized: real, total: real)

  /** The mark-to-market value of a position. */
  function Marked(position: int, mark: real): real
  {
    position as real * mark
  }

  /** Marking distributes over adding positions. */
  lemma MarkedAdd(x: int, y: int, mark: real)
    ensures Marked(x + y, mark) == Marked(x, mark) + Marked(y, mark)
  {
    assert (x + y) as real == x as real + y as real;
  }

  /** The row `printPnL` prints for `trader`: the position is the holding
      (zero when there is none), marked at `mark`. */
  function RowOf(a: Accounts, trader: string, mark: real): (r: PnLRow)
    requires trader in a.realized
    ensures r.trader == trader && r.realized == a.realized[trader] && r.position == Get(a.holdings, trader)
    ensures r.unrealized == Marked(r.position, mark)
    ensures r.total == r.realized as real + r.unrealized
  {
    var position := Get(a.holdings, trader);
    var unrealized := Marked(position, mark);
    PnLRow(trader, a.realized[trader], position, unrealized, a.realized[trader] as real + unrealized)
  }

  /** The traders that have a row. */
  function Traders(rows: seq<PnLRow>): set<string>
  {
    if rows == [] then {} else Traders(rows[..|rows| - 1]) + {rows[|rows| - 1].trader}
  }

  /** The sum of the `total` column. */
  function TotalPnL(rows: seq<PnLRow>): real
  {
    if rows == [] then 0.0 else TotalPnL(rows[..|rows| - 1]) + rows[|rows| - 1].total
  }

  /** The sum of the `realized` column. */
  function TotalRealized(rows: seq<PnLRow>): int
  {
    if rows == [] then 0 else TotalRealized(rows[..|rows| - 1]) + rows[|rows| - 1].realized
  }

  /** The sum of the `position` column. */
  function TotalPosition(rows: seq<PnLRow>): int
  {
    if rows == [] then 0 else TotalPosition(rows[..|rows| - 1]) + rows[|rows| - 1].position
  }

  /** When every row is marked at `mark`, the total column is the realized
      column plus the marked position column. */
  lemma {:induction false} TotalPnLSplit(a: Accounts, rows: seq<PnLRow>, mark: real)
    requires forall r :: r in rows ==> r.trader in a.realized && r == RowOf(a, r.trader, mark)
    ensures TotalPnL(rows) == TotalRealized(rows) as real + Marked(TotalPosition(rows), mark)
  {
    if rows != [] {
      var init, last := rows[..|rows| - 1], rows[|rows| - 1];
      assert forall r :: r in init ==> r in rows;
      TotalPnLSplit(a, init, mark);
      assert last in rows;
      MarkedAdd(TotalPosition(init), last.position, mark);
    }
  }

  class PnLTracker {
    var realized: map<string, int>
    var holdings: map<string, int>

    ghost function Snapshot(): Accounts
      reads this
    {
      Accounts(realized, holdings)
    }

    ghost predicate Valid()
      reads this
    {
      Balanced(Snapshot())
    }

    constructor ()
      ensures Valid()
      ensures realized == map[] && holdings == map[]
    {
      realized, holdings := map[], map[];
    }

    method RecordTrade(buyer: string, seller: string, quantity: int, price: int)
      requires Valid()
      modifies this
      ensures Valid()
      ensures Snapshot() == Record(old(Snapshot()), buyer, seller, quantity, price)
      ensures buyer != seller ==>
        && realized[buyer] == Get(old(realized), buyer) - quantity * price
        && realized[seller] == Get(old(realized), seller) + quantity * price
        && holdings[buyer] == Get(old(holdings), buyer) + quantity
        && holdings[seller] == Get(old(holdings), seller) - quantity
    {
      RecordKeepsBalanced(Snapshot(), buyer, seller, quantity, price);
      var value := quantity * price;
      realized := Transfer(realized, buyer, seller, value);
      holdings := Transfer(holdings, buyer, seller, -quantity);
    }

    /** The report: one row per trader with a cash entry, in no particular
        order, each marked at `mark`. */
    method Report(mark: real) returns (rows: seq<PnLRow>)
      requires Valid()
      ensures |rows| == |realized|
      ensures Traders(rows) == realized.Keys == holdings.Keys
      ensures forall r :: r in rows ==> r.trader in realized && r == RowOf(Snapshot(), r.trader, mark)
      ensures TotalPnL(rows) == 0.0
    {
      ghost var a := Snapshot();
      rows := [];
      var todo := realized.Keys;
      ghost var done: set<string> := {};
      while todo != {}
        invariant todo <= a.realized.Keys && done == a.realized.Keys - todo
        invariant |rows| + |todo| == |a.realized.Keys|
        invariant Reported(a, done, rows, mark)
        decreases todo
      {
        var t :| t in todo;
        var row := RowOf(Accounts(realized, holdings), t, mark);
        ReportedStep(a, done, rows, mark, t);
        rows := rows + [row];
        assert |todo - {t}| == |todo| - 1;
        todo, done := todo - {t}, done + {t};
      }
      ReportSumsToZero(a, rows, mark);
    }
  }

  /** `rows` is the report for the traders in `done`, marked at `mark`. */
  ghost predicate Reported(a: Accounts, done: set<string>, rows: seq<PnLRow>, mark: real)
  {
    && done <= a.realized.Keys
    && Traders(rows) == done
    && (forall r :: r in rows ==> r.trader in a.realized && r == RowOf(a, r.trader, mark))
  }

  /** Appending the row of one more trader extends the report. */
  lemma ReportedStep(a: Accounts, done: set<string>, rows: seq<PnLRow>, mark: real, t: string)
    requires Reported(a, done, rows, mark)
    requires t in a.realized && t !in done
    ensures Reported(a, done + {t}, rows + [RowOf(a, t, mark)], mark)
  {
    assert (rows + [RowOf(a, t, mark)])[..|rows|] == rows;
  }

  /** A report never has more traders than rows. */
  lemma {:induction false} TradersBound(rows: seq<PnLRow>)
    ensures |Traders(rows)| <= |rows|
  {
    if rows != [] {
      TradersBound(rows[..|rows| - 1]);
    }
  }

  /** With one row per trader, the realized and position columns sum to the
      ledger's entries for those traders. */
  lemma {:induction false} ColumnSums(a: Accounts, rows: seq<PnLRow>, mark: real)
    requires a.realized.Keys == a.holdings.Keys
    requires |Traders(rows)| == |rows|
    requires forall r :: r in rows ==> r.trader in a.realized && r == RowOf(a, r.trader, mark)
    ensures TotalRealized(rows) == MapSum(Restrict(a.realized, Traders(rows)))
    ensures TotalPosition(rows) == MapSum(Restrict(a.holdings, Traders(rows)))
  {
    if rows == [] {
      assert Restrict(a.realized, {}) == map[];
      assert Restrict(a.holdings, {}) == map[];
    } else {
      var init, last := rows[..|rows| - 1], rows[|rows| - 1];
      assert last in rows;
      TradersBound(init);
      assert last.trader !in Traders(init);
      assert |Traders(init)| == |init|;
      assert forall r :: r in init ==> r in rows;
      ColumnSums(a, init, mark);
      RestrictGrow(a.realized, Traders(init), last.trader);
      RestrictGrow(a.holdings, Traders(init), last.trader);
    }
  }

  /** The complete report of a balanced ledger sums to zero, whatever the mark. */
  lemma ReportSumsToZero(a: Accounts, rows: seq<PnLRow>, mark: real)
    requires Balanced(a)
    requires |rows| == |a.realized.Keys| && Traders(rows) == a.realized.Keys
    requires forall r :: r in rows ==> r.trader in a.realized && r == RowOf(a, r.trader, mark)
    ensures TotalPnL(rows) == 0.0
  {
    ColumnSums(a, rows, mark);
    assert Restrict(a.realized, a.realized.Keys) == a.realized;
    assert Restrict(a.holdings, a.realized.Keys) == a.holdings;
    TotalPnLSplit(a, rows, mark);
    MarkedAdd(0, 0, mark);
  }

  /** `m` cut down to the keys in `keys`. */
  function Restrict<K>(m: map<K, int>, keys: set<K>): (r: map<K, int>)
    ensures r.Keys == m.Keys * keys
  {
    map k | k in keys && k in m :: m[k]
  }

  /** Adding one key of `m` to the restriction adds its value to the sum. */
  lemma RestrictGrow<K>(m: map<K, int>, keys: set<K>, k: K)
    requires k in m && k !in keys
    ensures MapSum(Restrict(m, keys + {k})) == MapSum(Restrict(m, keys)) + m[k]
  {
    assert Restrict(m, keys + {k}) == Restrict(m, keys)[k := m[k]];
    MapSumUpdate(Restrict(m, keys), k, m[k]);
  }
}
