/**
 * The re-parser of the simulator's CSV log (ParseLogFile): each row after
 * the header is decoded column by column into one transaction, which is
 * filed under its agent and its order, and the row's best bid and ask are
 * filed under its time. The CSV reader hands over every line already split
 * into tokens; Java's `Long.parseLong`, `Integer.parseInt` and
 * `Float.parseFloat` are given as `Parsers`, each answering `None` where
 * the Java method throws.
 */
module LogParse {
  import opened Optional

  /** The number parsers readLog relies on. */
  datatype Parsers = Parsers(parseLong: string -> Option<int>, parseInt: string -> Option<int>,
                             parseFloat: string -> Option<real>)

  const TimeCol: nat := 0
  const BestBidCol: nat := 1
  const BestAskCol: nat := 2
  const AgentIdCol: nat := 3
  const AgentTypeCol: nat := 4
  const MessageCol: nat := 5
  const BuySellCol: nat := 6
  const OrderIdCol: nat := 7
  const OriginalQuantityCol: nat := 8
  const PriceCol: nat := 9
  const TypeCol: nat := 10
  const LeavesQuantityCol: nat := 11
  const TradePriceCol: nat := 12
  const QuantityFilledCol: nat := 13
  const AggressorCol: nat := 14
  const TradeMatchIdCol: nat := 15
  /** Tokens from this column on are not looked at. */
  const ColumnCount: nat := 16

  /** Everything one row of the log holds. */
  datatype Row = Row(time: int, bestBid: real, bestAsk: real, agentID: int, agentType: string, message: int,
                     buyOrder: bool, orderID: int, originalQuantity: int, price: real, marketOrder: bool,
                     leavesQuantity: int, tradePrice: real, quantityFilled: int, aggressor: char, tradeMatchID: int)

  /** The values every row starts from, before its tokens are read. */
  const DefaultRow := Row(0, 0.0, 0.0, 0, "", -1, true, 0, 0, 0.0, false, -1, -1.0, -1, ' ', -1)

  /** Java's `String.trim`: leading and trailing characters up to the space are dropped. */
  function Trim(s: string): (r: string)
    ensures |r| <= |s|
    ensures |r| > 0 ==> r[0] > ' ' && r[|r| - 1] > ' '
    ensures forall k :: 0 <= k < |s| && s[k] > ' ' ==> |r| > 0
    decreases |s|
  {
    if |s| > 0 && s[0] <= ' ' then Trim(s[1..])
    else if |s| > 0 && s[|s| - 1] <= ' ' then Trim(s[..|s| - 1])
    else s
  }

  /** Where `Trim(s)` starts in `s`: the number of leading characters it drops. */
  function TrimStart(s: string): nat
    decreases |s|
  {
    if |s| > 0 && s[0] <= ' ' then 1 + TrimStart(s[1..])
    else if |s| > 0 && s[|s| - 1] <= ' ' then TrimStart(s[..|s| - 1])
    else 0
  }

  /**
   * `String.trim` takes out only characters up to the space, and only at
   * the two ends: what it returns is the slice of `s` between them, and a
   * string with no visible character trims to the empty string.
   */
  lemma {:induction false} TrimIsInfix(s: string)
    ensures TrimStart(s) + |Trim(s)| <= |s|
    ensures Trim(s) == s[TrimStart(s)..TrimStart(s) + |Trim(s)|]
    ensures forall k :: 0 <= k < TrimStart(s) ==> s[k] <= ' '
    ensures forall k :: TrimStart(s) + |Trim(s)| <= k < |s| ==> s[k] <= ' '
    ensures (forall k :: 0 <= k < |s| ==> s[k] <= ' ') ==> Trim(s) == []
    decreases |s|
  {
    var i, r := TrimStart(s), Trim(s);
    if |s| > 0 && s[0] <= ' ' {
      var t := s[1..];
      assert i == 1 + TrimStart(t) && r == Trim(t);
      TrimIsInfix(t);
      TrimInfixFront(s, t, TrimStart(t), r);
    } else if |s| > 0 && s[|s| - 1] <= ' ' {
      var t := s[..|s| - 1];
      assert i == TrimStart(t) && r == Trim(t);
      TrimIsInfix(t);
      TrimInfixBack(s, t, i, r);
    } else {
      assert s[0..|s|] == s;
    }
    if |r| > 0 {
      assert r[0] == s[i];
    }
  }

  /** The infix facts carry over a blank first character. */
  lemma TrimInfixFront(s: string, t: string, i: nat, r: string)
    requires |s| > 0 && s[0] <= ' ' && t == s[1..]
    requires i + |r| <= |t| && r == t[i..i + |r|]
    requires forall k :: 0 <= k < i ==> t[k] <= ' '
    requires forall k :: i + |r| <= k < |t| ==> t[k] <= ' '
    ensures 1 + i + |r| <= |s| && r == s[1 + i..1 + i + |r|]
    ensures forall k :: 0 <= k < 1 + i ==> s[k] <= ' '
    ensures forall k :: 1 + i + |r| <= k < |s| ==> s[k] <= ' '
  {
    assert s[1 + i..1 + i + |r|] == t[i..i + |r|];
    forall k | 0 <= k < 1 + i ensures s[k] <= ' ' {
      if k > 0 { assert s[k] == t[k - 1]; }
    }
    forall k | 1 + i + |r| <= k < |s| ensures s[k] <= ' ' {
      assert s[k] == t[k - 1];
    }
  }

  /** The infix facts carry over a blank last character. */
  lemma TrimInfixBack(s: string, t: string, i: nat, r: string)
    requires |s| > 0 && s[|s| - 1] <= ' ' && t == s[..|s| - 1]
    requires i + |r| <= |t| && r == t[i..i + |r|]
    requires forall k :: 0 <= k < i ==> t[k] <= ' '
    requires forall k :: i + |r| <= k < |t| ==> t[k] <= ' '
    ensures i + |r| <= |s| && r == s[i..i + |r|]
    ensures forall k :: 0 <= k < i ==> s[k] <= ' '
    ensures forall k :: i + |r| <= k < |s| ==> s[k] <= ' '
  {
    assert s[i..i + |r|] == t[i..i + |r|];
    forall k | 0 <= k < i ensures s[k] <= ' ' {
      assert s[k] == t[k];
    }
    forall k | i + |r| <= k < |s| ensures s[k] <= ' ' {
      if k < |s| - 1 { assert s[k] == t[k]; }
    }
  }

  /** The token at `col`, none when the row is shorter. */
  function Token(row: seq<string>, col: nat): Option<string> {
    if col < |row| then Some(row[col]) else None
  }

  /** A column whose parse failure aborts reading: the default when absent, else the parse. */
  function Strict<T>(t: Option<string>, parse: string -> Option<T>, default: T): Option<T> {
    match t
    case None => Some(default)
    case Some(tok) => parse(tok)
  }

  /** A column that may be empty: the default when absent or empty, else the parse of the (trimmed) token. */
  function Blankable<T>(t: Option<string>, parse: string -> Option<T>, trim: bool, default: T): Option<T> {
    match t
    case None => Some(default)
    case Some(tok) => if tok == "" then Some(default) else parse(if trim then Trim(tok) else tok)
  }

  /** The best bid or ask: 0 when absent, -1 when the token does not parse. */
  function Quote(p: Parsers, t: Option<string>): real {
    match t
    case None => 0.0
    case Some(tok) => match p.parseFloat(tok) { case None => -1.0 case Some(x) => x }
  }

  /**
   * Every token that readLog parses without catching the exception
   * parses: the seven strict columns when present, and the trade price,
   * quantity filled and trade match ID when present and not empty (the
   * last two after trimming).
   */
  predicate Parses(p: Parsers, row: seq<string>) {
    && (|row| > TimeCol ==> p.parseLong(row[TimeCol]).Some?)
    && (|row| > AgentIdCol ==> p.parseLong(row[AgentIdCol]).Some?)
    && (|row| > MessageCol ==> p.parseInt(row[MessageCol]).Some?)
    && (|row| > OrderIdCol ==> p.parseLong(row[OrderIdCol]).Some?)
    && (|row| > OriginalQuantityCol ==> p.parseInt(row[OriginalQuantityCol]).Some?)
    && (|row| > PriceCol ==> p.parseFloat(row[PriceCol]).Some?)
    && (|row| > LeavesQuantityCol ==> p.parseInt(row[LeavesQuantityCol]).Some?)
    && (|row| > TradePriceCol && row[TradePriceCol] != "" ==> p.parseFloat(row[TradePriceCol]).Some?)
    && (|row| > QuantityFilledCol && row[QuantityFilledCol] != "" ==> p.parseInt(Trim(row[QuantityFilledCol])).Some?)
    && (|row| > TradeMatchIdCol && row[TradeMatchIdCol] != "" ==> p.parseLong(Trim(row[TradeMatchIdCol])).Some?)
  }

  /**
   * A row of tokens decoded as readLog decodes it: none when a token that
   * must parse does not (the exception that ends reading), else the row
   * with every column present read and every other left at its default.
   */
  function Decode(p: Parsers, row: seq<string>): (r: Option<Row>)
    ensures |row| == 0 ==> r == Some(DefaultRow)
    ensures r.Some? && |row| > BuySellCol ==> (r.value.buyOrder <==> row[BuySellCol] == "1")
    ensures r.Some? && |row| > TypeCol ==> (r.value.marketOrder <==> row[TypeCol] != "Limit")
    ensures r.Some? && |row| > BestBidCol && p.parseFloat(row[BestBidCol]).None? ==> r.value.bestBid == -1.0
    ensures r.Some? && |row| > BestAskCol && p.parseFloat(row[BestAskCol]).None? ==> r.value.bestAsk == -1.0
    ensures r.Some? && |row| > AggressorCol ==>
              r.value.aggressor == if row[AggressorCol] == "" then ' ' else row[AggressorCol][0]
    ensures r.Some? && |row| > TradePriceCol && row[TradePriceCol] == "" ==> r.value.tradePrice == -1.0
    ensures r.Some? && |row| > QuantityFilledCol && row[QuantityFilledCol] == "" ==> r.value.quantityFilled == -1
    ensures r.Some? && |row| > TradeMatchIdCol && row[TradeMatchIdCol] == "" ==> r.value.tradeMatchID == -1
    ensures |row| > TimeCol && p.parseLong(row[TimeCol]).None? ==> r.None?
    ensures |row| > AgentIdCol && p.parseLong(row[AgentIdCol]).None? ==> r.None?
    ensures |row| > OrderIdCol && p.parseLong(row[OrderIdCol]).None? ==> r.None?
    ensures |row| > MessageCol && p.parseInt(row[MessageCol]).None? ==> r.None?
    ensures |row| > OriginalQuantityCol && p.parseInt(row[OriginalQuantityCol]).None? ==> r.None?
    ensures |row| > PriceCol && p.parseFloat(row[PriceCol]).None? ==> r.None?
    ensures |row| > LeavesQuantityCol && p.parseInt(row[LeavesQuantityCol]).None? ==> r.None?
    ensures |row| > TradePriceCol && row[TradePriceCol] != "" && p.parseFloat(row[TradePriceCol]).None? ==> r.None?
    ensures (|row| > QuantityFilledCol && row[QuantityFilledCol] != "" && p.parseInt(Trim(row[QuantityFilledCol])).None?)
            ==> r.None?
    ensures (|row| > TradeMatchIdCol && row[TradeMatchIdCol] != "" && p.parseLong(Trim(row[TradeMatchIdCol])).None?)
            ==> r.None?
    ensures r.Some? <==> Parses(p, row)
    ensures r.Some? ==> r.value.time == if |row| > TimeCol then p.parseLong(row[TimeCol]).value else 0
    ensures r.Some? ==> r.value.agentID == if |row| > AgentIdCol then p.parseLong(row[AgentIdCol]).value else 0
    ensures r.Some? ==> r.value.agentType == if |row| > AgentTypeCol then row[AgentTypeCol] else ""
    ensures r.Some? ==> r.value.message == if |row| > MessageCol then p.parseInt(row[MessageCol]).value else -1
    ensures r.Some? ==> r.value.orderID == if |row| > OrderIdCol then p.parseLong(row[OrderIdCol]).value else 0
    ensures r.Some? ==>
              r.value.originalQuantity == if |row| > OriginalQuantityCol then p.parseInt(row[OriginalQuantityCol]).value else 0
    ensures r.Some? ==> r.value.price == if |row| > PriceCol then p.parseFloat(row[PriceCol]).value else 0.0
    ensures r.Some? ==>
              r.value.leavesQuantity == if |row| > LeavesQuantityCol then p.parseInt(row[LeavesQuantityCol]).value else -1
    ensures r.Some? && |row| <= BestBidCol ==> r.value.bestBid == 0.0
    ensures r.Some? && |row| > BestBidCol && p.parseFloat(row[BestBidCol]).Some? ==>
              r.value.bestBid == p.parseFloat(row[BestBidCol]).value
    ensures r.Some? && |row| <= BestAskCol ==> r.value.bestAsk == 0.0
    ensures r.Some? && |row| > BestAskCol && p.parseFloat(row[BestAskCol]).Some? ==>
              r.value.bestAsk == p.parseFloat(row[BestAskCol]).value
    ensures r.Some? && |row| > TradePriceCol && row[TradePriceCol] != "" ==>
              r.value.tradePrice == p.parseFloat(row[TradePriceCol]).value
    ensures r.Some? && |row| > QuantityFilledCol && row[QuantityFilledCol] != "" ==>
              r.value.quantityFilled == p.parseInt(Trim(row[QuantityFilledCol])).value
    ensures r.Some? && |row| > TradeMatchIdCol && row[TradeMatchIdCol] != "" ==>
              r.value.tradeMatchID == p.parseLong(Trim(row[TradeMatchIdCol])).value
  {
    var time := Strict(Token(row, TimeCol), p.parseLong, 0);
    var agentID := Strict(Token(row, AgentIdCol), p.parseLong, 0);
    var message := Strict(Token(row, MessageCol), p.parseInt, -1);
    var orderID := Strict(Token(row, OrderIdCol), p.parseLong, 0);
    var originalQuantity := Strict(Token(row, OriginalQuantityCol), p.parseInt, 0);
    var price := Strict(Token(row, PriceCol), p.parseFloat, 0.0);
    var leavesQuantity := Strict(Token(row, LeavesQuantityCol), p.parseInt, -1);
    var tradePrice := Blankable(Token(row, TradePriceCol), p.parseFloat, false, -1.0);
    var quantityFilled := Blankable(Token(row, QuantityFilledCol), p.parseInt, true, -1);
    var tradeMatchID := Blankable(Token(row, TradeMatchIdCol), p.parseLong, true, -1);
    if time.None? || agentID.None? || message.None? || orderID.None? || originalQuantity.None? || price.None?
       || leavesQuantity.None? || tradePrice.None? || quantityFilled.None? || tradeMatchID.None?
    then None
    else
      var agentType := match Token(row, AgentTypeCol) { case None => "" case Some(tok) => tok };
      var buyOrder := match Token(row, BuySellCol) { case None => true case Some(tok) => tok == "1" };
      var marketOrder := match Token(row, TypeCol) { case None => false case Some(tok) => tok != "Limit" };
      var aggressor := match Token(row, AggressorCol) { case None => ' ' case Some(tok) => if tok == "" then ' ' else tok[0] };
      Some(Row(time.value, Quote(p, Token(row, BestBidCol)), Quote(p, Token(row, BestAskCol)), agentID.value, agentType,
               message.value, buyOrder, orderID.value, originalQuantity.value, price.value, marketOrder,
               leavesQuantity.value, tradePrice.value, quantityFilled.value, aggressor, tradeMatchID.value))
  }

  /** Tokens past the last column leave the decoded row as it is. */
  lemma DecodeIgnoresExtraColumns(p: Parsers, row: seq<string>)
    requires |row| > ColumnCount
    ensures Decode(p, row) == Decode(p, row[..ColumnCount])
  {
    forall c: nat | c < ColumnCount
      ensures Token(row, c) == Token(row[..ColumnCount], c)
    {
    }
  }

  /** What a transaction of an order keeps of its row. */
  datatype Transaction = Transaction(time: int, message: int, buyOrder: bool, originalQuant: int, price: real,
                                     marketOrder: bool, leavesQuantity: int, tradePrice: real, quantityFilled: int,
                                     aggressor: char, tradeMatchID: int)

  function TransactionOf(r: Row): Transaction {
    Transaction(r.time, r.message, r.buyOrder, r.originalQuantity, r.price, r.marketOrder, r.leavesQuantity,
                r.tradePrice, r.quantityFilled, r.aggressor, r.tradeMatchID)
  }

  /** OrderLog: an order ID and its transactions in file order. */
  datatype OrderLog = OrderLog(orderID: int, transactions: seq<Transaction>)

  /** AgentLog: an agent ID, its type, and its orders by order ID. */
  datatype AgentLog = AgentLog(agentID: int, agentType: string, orders: map<int, OrderLog>)

  /** OrderBookItemLog: the best bid and ask of a row. */
  datatype BookItem = BookItem(bid: real, ask: real)

  /** The agents the rows name. */
  function AgentIds(rows: seq<Row>): set<int> {
    set r | r in rows :: r.agentID
  }

  /** The orders the rows of agent `a` name. */
  function OrderIds(rows: seq<Row>, a: int): set<int> {
    set r | r in rows && r.agentID == a :: r.orderID
  }

  /** The times the rows name. */
  function Times(rows: seq<Row>): set<int> {
    set r | r in rows :: r.time
  }

  /** The transactions of the rows of agent `a` and order `o`, in file order. */
  function History(rows: seq<Row>, a: int, o: int): (h: seq<Transaction>)
    ensures |h| <= |rows|
    decreases |rows|
  {
    if |rows| == 0 then []
    else
      var last := rows[|rows| - 1];
      History(rows[..|rows| - 1], a, o) + (if last.agentID == a && last.orderID == o then [TransactionOf(last)] else [])
  }

  /** The type on the first row of agent `a`. */
  function FirstType(rows: seq<Row>, a: int): string
    decreases |rows|
  {
    if |rows| == 0 then ""
    else if a in AgentIds(rows[..|rows| - 1]) then FirstType(rows[..|rows| - 1], a)
    else rows[|rows| - 1].agentType
  }

  /** The best bid and ask of the last row at time `t`. */
  function LastQuote(rows: seq<Row>, t: int): BookItem
    decreases |rows|
  {
    if |rows| == 0 then BookItem(0.0, 0.0)
    else if rows[|rows| - 1].time == t then BookItem(rows[|rows| - 1].bestBid, rows[|rows| - 1].bestAsk)
    else LastQuote(rows[..|rows| - 1], t)
  }

  /** The orders map of agent `a` readLog builds from `rows`. */
  function OrdersOf(rows: seq<Row>, a: int): map<int, OrderLog> {
    map o | o in OrderIds(rows, a) :: OrderLog(o, History(rows, a, o))
  }

  /** The agents map readLog builds from `rows`. */
  function Agents(rows: seq<Row>): map<int, AgentLog> {
    map a | a in AgentIds(rows) :: AgentLog(a, FirstType(rows, a), OrdersOf(rows, a))
  }

  /** The order book readLog builds from `rows`. */
  function OrderBook(rows: seq<Row>): map<int, BookItem> {
    map t | t in Times(rows) :: LastQuote(rows, t)
  }

  /** The type of an agent is that of its first row. */
  lemma {:induction false} FirstTypeIsFirst(rows: seq<Row>, k: nat)
    requires k < |rows| && forall j :: 0 <= j < k ==> rows[j].agentID != rows[k].agentID
    ensures FirstType(rows, rows[k].agentID) == rows[k].agentType
    decreases |rows|
  {
    var a := rows[k].agentID;
    var init := rows[..|rows| - 1];
    if k < |rows| - 1 {
      assert init[k] == rows[k];
      assert a in AgentIds(init);
      FirstTypeIsFirst(init, k);
    } else {
      assert a !in AgentIds(init);
    }
  }

  /** The quote kept for a time is that of the last row at that time. */
  lemma {:induction false} LastQuoteIsLast(rows: seq<Row>, k: nat)
    requires k < |rows| && forall j :: k < j < |rows| ==> rows[j].time != rows[k].time
    ensures LastQuote(rows, rows[k].time) == BookItem(rows[k].bestBid, rows[k].bestAsk)
    decreases |rows|
  {
    if k < |rows| - 1 {
      var init := rows[..|rows| - 1];
      assert init[k] == rows[k];
      LastQuoteIsLast(init, k);
    }
  }

  /**
   * A row read after `rows`: its agent is entered with its type unless it
   * already was, its order is entered unless it already was, exactly one
   * transaction is appended to that order, and no other agent or order changes.
   */
  lemma AgentsAppend(rows: seq<Row>, r: Row)
    ensures var g := Agents(rows);
            var ag := if r.agentID in g then g[r.agentID] else AgentLog(r.agentID, r.agentType, map[]);
            var ol := if r.orderID in ag.orders then ag.orders[r.orderID] else OrderLog(r.orderID, []);
            Agents(rows + [r])
              == g[r.agentID := ag.(orders := ag.orders[r.orderID := ol.(transactions := ol.transactions + [TransactionOf(r)])])]
  {
    var rows' := rows + [r];
    assert rows'[..|rows|] == rows;
    assert AgentIds(rows') == AgentIds(rows) + {r.agentID};
    var g := Agents(rows);
    forall a | a in AgentIds(rows) && a != r.agentID
      ensures Agents(rows')[a] == g[a]
    {
      OtherAgentUnchanged(rows, r, a);
    }
    FiledAgent(rows, r);
  }

  /** The row leaves every other agent's log as it was. */
  lemma OtherAgentUnchanged(rows: seq<Row>, r: Row, a: int)
    requires a in AgentIds(rows) && a != r.agentID
    ensures a in AgentIds(rows + [r]) && Agents(rows + [r])[a] == Agents(rows)[a]
  {
    var rows' := rows + [r];
    assert rows'[..|rows|] == rows;
    assert a in AgentIds(rows');
    assert OrderIds(rows', a) == OrderIds(rows, a);
    assert FirstType(rows', a) == FirstType(rows, a);
    forall o | o in OrderIds(rows, a)
      ensures History(rows', a, o) == History(rows, a, o)
    {
    }
  }

  /** The row's own agent: entered with the row's type when new, with one more transaction for the row's order. */
  lemma FiledAgent(rows: seq<Row>, r: Row)
    ensures var g := Agents(rows);
            var ag := if r.agentID in g then g[r.agentID] else AgentLog(r.agentID, r.agentType, map[]);
            var ol := if r.orderID in ag.orders then ag.orders[r.orderID] else OrderLog(r.orderID, []);
            Agents(rows + [r])[r.agentID]
              == ag.(orders := ag.orders[r.orderID := ol.(transactions := ol.transactions + [TransactionOf(r)])])
  {
    var rows' := rows + [r];
    var a := r.agentID;
    assert rows'[..|rows|] == rows;
    assert a in AgentIds(rows');
    if a !in AgentIds(rows) {
      assert OrderIds(rows, a) == {};
      assert OrdersOf(rows, a) == map[];
      assert FirstType(rows', a) == r.agentType;
    } else {
      assert FirstType(rows', a) == FirstType(rows, a);
    }
    FiledOrder(rows, r);
  }

  /** The row's own order: entered when new, with the row's transaction appended. */
  lemma FiledOrder(rows: seq<Row>, r: Row)
    ensures var os := OrdersOf(rows, r.agentID);
            var ol := if r.orderID in os then os[r.orderID] else OrderLog(r.orderID, []);
            OrdersOf(rows + [r], r.agentID) == os[r.orderID := ol.(transactions := ol.transactions + [TransactionOf(r)])]
  {
    var rows' := rows + [r];
    var a := r.agentID;
    assert rows'[..|rows|] == rows;
    assert OrderIds(rows', a) == OrderIds(rows, a) + {r.orderID};
    var os := OrdersOf(rows, a);
    var ol := if r.orderID in os then os[r.orderID] else OrderLog(r.orderID, []);
    if r.orderID !in OrderIds(rows, a) {
      HistoryOfNone(rows, a, r.orderID);
    }
    assert ol == OrderLog(r.orderID, History(rows, a, r.orderID));
    var expected := os[r.orderID := ol.(transactions := ol.transactions + [TransactionOf(r)])];
    forall o | o in OrderIds(rows', a)
      ensures OrdersOf(rows', a)[o] == expected[o]
    {
      assert History(rows', a, o) == History(rows, a, o) + (if o == r.orderID then [TransactionOf(r)] else []);
    }
    assert OrdersOf(rows', a).Keys == expected.Keys;
  }

  /** An order no row names has no transactions. */
  lemma {:induction false} HistoryOfNone(rows: seq<Row>, a: int, o: int)
    requires o !in OrderIds(rows, a)
    ensures History(rows, a, o) == []
    decreases |rows|
  {
    if |rows| > 0 {
      var init := rows[..|rows| - 1];
      assert rows[|rows| - 1] in rows;
      assert o !in OrderIds(init, a) by {
        forall x | x in init ensures x in rows {
        }
      }
      HistoryOfNone(init, a, o);
    }
  }

  /** A row read after `rows` files its best bid and ask under its time, replacing what was there. */
  lemma OrderBookAppend(rows: seq<Row>, r: Row)
    ensures OrderBook(rows + [r]) == OrderBook(rows)[r.time := BookItem(r.bestBid, r.bestAsk)]
  {
    var rows' := rows + [r];
    assert rows'[..|rows|] == rows;
    assert Times(rows') == Times(rows) + {r.time};
  }

  /**
   * `parsed` is what readLog decodes of `rows`: the rows up to the first
   * that does not decode (none when every row decodes).
   */
  predicate ReadUpTo(p: Parsers, rows: seq<seq<string>>, parsed: seq<Row>) {
    && |parsed| <= |rows|
    && (forall k :: 0 <= k < |parsed| ==> Decode(p, rows[k]) == Some(parsed[k]))
    && (|parsed| < |rows| ==> Decode(p, rows[|parsed|]).None?)
  }

  /** The rows after the header line. */
  function Body(lines: seq<seq<string>>): seq<seq<string>> {
    if |lines| == 0 then [] else lines[1..]
  }

  class ParseLogFile {
    /** Agents: agent ID to its log. */
    var agents: map<int, AgentLog>
    /** OrderBook: time to the best bid and ask. */
    var orderBook: map<int, BookItem>
    /** The rows decoded so far, in file order. */
    ghost var parsed: seq<Row>

    /**
     * Both maps start empty, then the file is read when there is one; a
     * missing file leaves them empty.
     */
    constructor (p: Parsers, file: Option<seq<seq<string>>>)
      ensures file.None? ==> parsed == []
      ensures file.Some? ==> ReadUpTo(p, Body(file.value), parsed)
      ensures agents == Agents(parsed) && orderBook == OrderBook(parsed)
    {
      agents := map[];
      orderBook := map[];
      parsed := [];
      new;
      assert Agents([]) == map[];
      assert OrderBook([]) == map[];
      if file.Some? {
        ReadLog(p, file.value);
      }
    }

    /**
     * readLog: the header line is skipped and every later row is decoded
     * and filed in order, until a row does not decode.
     */
    method ReadLog(p: Parsers, lines: seq<seq<string>>)
      requires parsed == [] && agents == Agents([]) && orderBook == OrderBook([])
      modifies this
      ensures ReadUpTo(p, Body(lines), parsed)
      ensures agents == Agents(parsed) && orderBook == OrderBook(parsed)
    {
      var rows := Body(lines);
      var i := 0;
      while i < |rows|
        invariant 0 <= i <= |rows| && |parsed| == i
        invariant forall k :: 0 <= k < i ==> Decode(p, rows[k]) == Some(parsed[k])
        invariant agents == Agents(parsed) && orderBook == OrderBook(parsed)
      {
        var row := DecodeRow(p, rows[i]);
        if row.None? {
          return;
        }
        AddRow(row.value);
        i := i + 1;
      }
    }

    /** The filing of one decoded row: its agent, its order, its transaction, and its best bid and ask. */
    method AddRow(r: Row)
      requires agents == Agents(parsed) && orderBook == OrderBook(parsed)
      modifies this
      ensures parsed == old(parsed) + [r]
      ensures agents == Agents(parsed) && orderBook == OrderBook(parsed)
    {
      AgentsAppend(parsed, r);
      OrderBookAppend(parsed, r);
      var agent: AgentLog;
      if r.agentID in agents {
        agent := agents[r.agentID];
      } else {
        agent := AgentLog(r.agentID, r.agentType, map[]);
      }
      var order: OrderLog;
      if r.orderID in agent.orders {
        order := agent.orders[r.orderID];
      } else {
        order := OrderLog(r.orderID, []);
      }
      order := order.(transactions := order.transactions + [TransactionOf(r)]);
      agent := agent.(orders := agent.orders[r.orderID := order]);
      agents := agents[r.agentID := agent];
      orderBook := orderBook[r.time := BookItem(r.bestBid, r.bestAsk)];
      parsed := parsed + [r];
    }
  }

  /**
   * The column loop of readLog: every token is read in turn by the column
   * it stands in, starting from the defaults; a token of a column that must
   * parse and does not ends the row with none.
   */
  method DecodeRow(p: Parsers, row: seq<string>) returns (r: Option<Row>)
    ensures r == Decode(p, row)
  {
    var cur := DefaultRow;
    var j := 0;
    while j < |row|
      invariant 0 <= j <= |row|
      invariant Decode(p, row[..j]) == Some(cur)
    {
      var token := row[j];
      TokenPrefix(row, j);
      if j == TimeCol {
        var v := p.parseLong(token);
        if v.None? {
          return None;
        }
        cur := cur.(time := v.value);
      } else if j == BestBidCol {
        cur := cur.(bestBid := match p.parseFloat(token) { case None => -1.0 case Some(x) => x });
      } else if j == BestAskCol {
        cur := cur.(bestAsk := match p.parseFloat(token) { case None => -1.0 case Some(x) => x });
      } else if j == AgentIdCol {
        var v := p.parseLong(token);
        if v.None? {
          return None;
        }
        cur := cur.(agentID := v.value);
      } else if j == AgentTypeCol {
        cur := cur.(agentType := token);
      } else if j == MessageCol {
        var v := p.parseInt(token);
        if v.None? {
          return None;
        }
        cur := cur.(message := v.value);
      } else if j == BuySellCol {
        cur := cur.(buyOrder := token == "1");
      } else if j == OrderIdCol {
        var v := p.parseLong(token);
        if v.None? {
          return None;
        }
        cur := cur.(orderID := v.value);
      } else if j == OriginalQuantityCol {
        var v := p.parseInt(token);
        if v.None? {
          return None;
        }
        cur := cur.(originalQuantity := v.value);
      } else if j == PriceCol {
        var v := p.parseFloat(token);
        if v.None? {
          return None;
        }
        cur := cur.(price := v.value);
      } else if j == TypeCol {
        cur := cur.(marketOrder := token != "Limit");
      } else if j == LeavesQuantityCol {
        var v := p.parseInt(token);
        if v.None? {
          return None;
        }
        cur := cur.(leavesQuantity := v.value);
      } else if j == TradePriceCol {
        if token != "" {
          var v := p.parseFloat(token);
          if v.None? {
            return None;
          }
          cur := cur.(tradePrice := v.value);
        } else {
          cur := cur.(tradePrice := -1.0);
        }
      } else if j == QuantityFilledCol {
        if token != "" {
          var v := p.parseInt(Trim(token));
          if v.None? {
            return None;
          }
          cur := cur.(quantityFilled := v.value);
        } else {
          cur := cur.(quantityFilled := -1);
        }
      } else if j == AggressorCol {
        if token != "" {
          cur := cur.(aggressor := token[0]);
        } else {
          cur := cur.(aggressor := ' ');
        }
      } else if j == TradeMatchIdCol {
        if token != "" {
          var v := p.parseLong(Trim(token));
          if v.None? {
            return None;
          }
          cur := cur.(tradeMatchID := v.value);
        } else {
          cur := cur.(tradeMatchID := -1);
        }
      }
      j := j + 1;
    }
    assert row[..j] == row;
    return Some(cur);
  }

  /** One more token of a row is seen at its own column only. */
  lemma TokenPrefix(row: seq<string>, j: nat)
    requires j < |row|
    ensures Token(row[..j + 1], j) == Some(row[j]) && Token(row, j) == Some(row[j])
    ensures forall c: nat :: c != j ==> Token(row[..j + 1], c) == Token(row[..j], c)
    ensures forall c: nat :: c <= j ==> Token(row[..j + 1], c) == Token(row, c)
  {
  }
}
