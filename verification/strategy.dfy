/** The trading strategy of src/strategy.py: it reads the gateway's feed and,
    per symbol, buys one lot below 100 and sells it again above 105. The
    open position of each symbol is the strategy's only state. */
module Strategy {
  import opened Wrappers
  import opened Framing
  import opened TickProtocol
  import Json

  datatype Side = Buy | Sell

  /** The order record `_send_order` builds and sends. */
  datatype Order = Order(symbol: string, side: Side, qty: int, price: real)

  const BuyBelow: real := 100.0
  const SellAbove: real := 105.0
  const LotSize: int := 10

  /** `self.positions`: symbol to position size. */
  type Positions = map<string, int>

  /** The effect of handling some input: the new positions and the orders
      sent, in sending order. */
  datatype Decision = Decision(positions: Positions, orders: seq<Order>)

  /** `positions.get(symbol, 0)`. */
  function Position(positions: Positions, symbol: string): int
  {
    if symbol in positions then positions[symbol] else 0
  }

  /** `_maybe_trade`: one price observation for one symbol. */
  function MaybeTrade(positions: Positions, symbol: string, price: real): (d: Decision)
    ensures d.orders == [] || d.orders == [Order(symbol, Buy, LotSize, price)]
      || d.orders == [Order(symbol, Sell, LotSize, price)]
    ensures d.orders == [Order(symbol, Buy, LotSize, price)]
      <==> price < BuyBelow && Position(positions, symbol) <= 0
    ensures d.orders == [Order(symbol, Sell, LotSize, price)]
      <==> price > SellAbove && Position(positions, symbol) > 0
    ensures d.orders == [] <==> d.positions == positions
    ensures d.positions == positions
      || d.positions == positions[symbol := Position(d.positions, symbol)]
    ensures d.orders != [] && d.orders[0].side == Buy ==> Position(d.positions, symbol) == LotSize
    ensures d.orders != [] && d.orders[0].side == Sell ==> Position(d.positions, symbol) == 0
  {
    var position := Position(positions, symbol);
    if price < BuyBelow && position <= 0 then
      Decision(positions[symbol := LotSize], [Order(symbol, Buy, LotSize, price)])
    else if price > SellAbove && position > 0 then
      Decision(positions[symbol := 0], [Order(symbol, Sell, LotSize, price)])
    else
      Decision(positions, [])
  }

  /** `_handle_message`: only a well-formed price frame reaches the trading
      rule; news, malformed and unknown frames are only logged. */
  function HandleMessage(positions: Positions, frame: string, parse: string -> Option<real>): (d: Decision)
    ensures !Classify(frame, parse).PriceTick? ==> d == Decision(positions, [])
    ensures Classify(frame, parse).PriceTick? ==>
      d == MaybeTrade(positions, Classify(frame, parse).symbol, Classify(frame, parse).price)
  {
    match Classify(frame, parse)
    case PriceTick(symbol, price) => MaybeTrade(positions, symbol, price)
    case _ => Decision(positions, [])
  }

  /** The frames of one session handled in arrival order. */
  function HandleFrames(positions: Positions, frames: seq<string>, parse: string -> Option<real>): Decision
    decreases |frames|
  {
    if |frames| == 0 then Decision(positions, [])
    else
      var first := HandleMessage(positions, frames[0], parse);
      var rest := HandleFrames(first.positions, frames[1..], parse);
      Decision(rest.positions, first.orders + rest.orders)
  }

  /** `run`: the strategy fed the gateway stream in chunks, starting with an
      empty buffer. */
  function Run(positions: Positions, chunks: seq<string>, parse: string -> Option<real>): (d: Decision)
    ensures d == Trade(positions, Observations(SplitFrames(Flatten(chunks), Delim).frames, parse))
  {
    FeedAllSplitsStream([], chunks, Delim);
    assert [] + Flatten(chunks) == Flatten(chunks);
    FramesTradeOnObservations(positions, FeedAll([], chunks, Delim).frames, parse);
    HandleFrames(positions, FeedAll([], chunks, Delim).frames, parse)
  }

  /** A price observation: what a well-formed price frame carries. */
  datatype Observation = Observation(symbol: string, price: real)

  /** The price observations among `frames`, in order. */
  function Observations(frames: seq<string>, parse: string -> Option<real>): seq<Observation>
    decreases |frames|
  {
    if |frames| == 0 then []
    else
      var m := Classify(frames[0], parse);
      (if m.PriceTick? then [Observation(m.symbol, m.price)] else [])
        + Observations(frames[1..], parse)
  }

  /** The trading rule applied to observations in order. */
  function Trade(positions: Positions, obs: seq<Observation>): Decision
    decreases |obs|
  {
    if |obs| == 0 then Decision(positions, [])
    else
      var first := MaybeTrade(positions, obs[0].symbol, obs[0].price);
      var rest := Trade(first.positions, obs[1..]);
      Decision(rest.positions, first.orders + rest.orders)
  }

  /** Only price observations matter: handling the frames of a session is
      trading on its price observations, whatever else the frames hold. */
  lemma {:induction false} FramesTradeOnObservations(positions: Positions, frames: seq<string>,
                                                      parse: string -> Option<real>)
    ensures HandleFrames(positions, frames, parse) == Trade(positions, Observations(frames, parse))
    decreases |frames|
  {
    if |frames| > 0 {
      var m := Classify(frames[0], parse);
      var first := HandleMessage(positions, frames[0], parse);
      FramesTradeOnObservations(first.positions, frames[1..], parse);
      var obs := Observations(frames, parse);
      if m.PriceTick? {
        assert obs[0] == Observation(m.symbol, m.price);
        assert obs[1..] == Observations(frames[1..], parse);
      } else {
        assert obs == Observations(frames[1..], parse);
      }
    }
  }

  /** Chunk boundaries in the feed do not change what the strategy does. */
  lemma RunIgnoresChunking(positions: Positions, c1: seq<string>, c2: seq<string>,
                           parse: string -> Option<real>)
    requires Flatten(c1) == Flatten(c2)
    ensures Run(positions, c1, parse) == Run(positions, c2, parse)
  {
    ChunkingIrrelevant(c1, c2, Delim);
  }

  /** Every stored position is flat or one lot. */
  ghost predicate ValidPositions(positions: Positions)
  {
    forall s :: s in positions ==> positions[s] == 0 || positions[s] == LotSize
  }

  /** Starting from valid positions (the empty map in particular), every
      order is for one lot and the positions stay valid. */
  lemma {:induction false} TradeKeepsPositionsValid(positions: Positions, obs: seq<Observation>)
    requires ValidPositions(positions)
    ensures ValidPositions(Trade(positions, obs).positions)
    ensures forall i :: 0 <= i < |Trade(positions, obs).orders| ==>
      Trade(positions, obs).orders[i].qty == LotSize
    decreases |obs|
  {
    if |obs| > 0 {
      var first := MaybeTrade(positions, obs[0].symbol, obs[0].price);
      assert ValidPositions(first.positions);
      TradeKeepsPositionsValid(first.positions, obs[1..]);
    }
  }

  /** The sides of the orders for `symbol`, in sending order. */
  function SidesFor(orders: seq<Order>, symbol: string): seq<Side>
    decreases |orders|
  {
    if |orders| == 0 then []
    else (if orders[0].symbol == symbol then [orders[0].side] else []) + SidesFor(orders[1..], symbol)
  }

  lemma {:induction false} SidesForAppend(a: seq<Order>, b: seq<Order>, symbol: string)
    ensures SidesFor(a + b, symbol) == SidesFor(a, symbol) + SidesFor(b, symbol)
    decreases |a|
  {
    if |a| == 0 {
      assert a + b == b;
    } else {
      var head := if a[0].symbol == symbol then [a[0].side] else [];
      ConsAppend(a, b);
      SidesForAppend(a[1..], b, symbol);
      Reassociate(SidesFor(a + b, symbol), SidesFor(a, symbol), SidesFor(b, symbol), head,
                  SidesFor(a[1..] + b, symbol), SidesFor(a[1..], symbol));
    }
  }

  function Opposite(side: Side): Side
  {
    if side == Buy then Sell else Buy
  }

  /** `sides` is `next`, then the opposite, then `next` again, and so on. */
  ghost predicate Alternating(sides: seq<Side>, next: Side)
    decreases |sides|
  {
    |sides| == 0 || (sides[0] == next && Alternating(sides[1..], Opposite(next)))
  }

  /** The side the rule can send next for `symbol`: a SELL only while a
      position is open. */
  function NextSide(positions: Positions, symbol: string): Side
  {
    if Position(positions, symbol) > 0 then Sell else Buy
  }

  /** Per symbol, orders alternate: never two BUYs or two SELLs in a row. */
  lemma {:induction false} OrdersAlternate(positions: Positions, obs: seq<Observation>, symbol: string)
    ensures Alternating(SidesFor(Trade(positions, obs).orders, symbol), NextSide(positions, symbol))
    decreases |obs|
  {
    if |obs| > 0 {
      var first := MaybeTrade(positions, obs[0].symbol, obs[0].price);
      var rest := Trade(first.positions, obs[1..]);
      assert Trade(positions, obs).orders == first.orders + rest.orders;
      OrdersAlternate(first.positions, obs[1..], symbol);
      SidesForAppend(first.orders, rest.orders, symbol);
      assert first.orders == [] || first.orders[1..] == [];
      if first.orders != [] && obs[0].symbol == symbol {
        assert SidesFor(first.orders, symbol) == [first.orders[0].side];
        assert [first.orders[0].side] + SidesFor(rest.orders, symbol)
          == SidesFor(Trade(positions, obs).orders, symbol);
      } else {
        assert SidesFor(first.orders, symbol) == [] by {
          if first.orders != [] {
            assert first.orders[0].symbol != symbol;
          }
        }
        assert Position(first.positions, symbol) == Position(positions, symbol);
        assert SidesFor(Trade(positions, obs).orders, symbol) == SidesFor(rest.orders, symbol);
      }
    }
  }

  /** From an empty position map, each symbol's orders go BUY, SELL, BUY, … */
  lemma FirstOrderIsBuy(obs: seq<Observation>, symbol: string)
    ensures Alternating(SidesFor(Trade(map[], obs).orders, symbol), Buy)
  {
    OrdersAlternate(map[], obs, symbol);
  }

  /** Prices 95, 101, 106 for one symbol: buy at 95, hold, sell at 106. */
  lemma BuyHoldSellExample()
    ensures Trade(map[], [Observation("AAPL", 95.0), Observation("AAPL", 101.0), Observation("AAPL", 106.0)])
      == Decision(map["AAPL" := 0], [Order("AAPL", Buy, 10, 95.0), Order("AAPL", Sell, 10, 106.0)])
  {
    var obs := [Observation("AAPL", 95.0), Observation("AAPL", 101.0), Observation("AAPL", 106.0)];
    assert obs[1..][1..][1..] == [];
  }

  /** Prices 101, 99, 101: 99 is below the buy threshold, so the rule buys. */
  lemma DipBelowThresholdBuys()
    ensures Trade(map[], [Observation("AAPL", 101.0), Observation("AAPL", 99.0), Observation("AAPL", 101.0)])
      == Decision(map["AAPL" := 10], [Order("AAPL", Buy, 10, 99.0)])
  {
    var obs := [Observation("AAPL", 101.0), Observation("AAPL", 99.0), Observation("AAPL", 101.0)];
    assert obs[1..][1..][1..] == [];
  }

  /** The order an order record describes: a string symbol, side `BUY` or
      `SELL`, an integer quantity and a float price. `None` for anything
      else. */
  function ReadOrder(v: Json.Value): Option<Order>
  {
    match v
    case JObject(m) =>
      if && "symbol" in m && "side" in m && "qty" in m && "price" in m
         && m["symbol"].JStr? && m["qty"].JInt? && m["price"].JFloat?
         && (m["side"] == Json.JStr("BUY") || m["side"] == Json.JStr("SELL"))
      then
        Some(Order(m["symbol"].s, if m["side"] == Json.JStr("BUY") then Buy else Sell,
                   m["qty"].i, m["price"].f))
      else None
    case _ => None
  }

  /** The JSON object `_send_order` serialises for an order: exactly the
      four order keys, from which the order is read back unchanged. */
  function OrderJson(order: Order): (v: Json.Value)
    ensures v.JObject? && v.members.Keys == {"symbol", "side", "qty", "price"}
    ensures ReadOrder(v) == Some(order)
  {
    Json.JObject(map[
      "symbol" := Json.JStr(order.symbol),
      "side" := Json.JStr(if order.side == Buy then "BUY" else "SELL"),
      "qty" := Json.JInt(order.qty),
      "price" := Json.JFloat(order.price)])
  }
}
