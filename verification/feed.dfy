/** The gateway's feed as its two readers see it: one tick of
    src/gateway.py, delivered to a client that survives every broadcast of
    the tick and read by src/orderbook.py or src/strategy.py. */
module Feed {
  import opened Wrappers
  import opened Framing
  import opened Text
  import opened TickProtocol
  import opened PriceStore
  import Gateway
  import OrderBook
  import Strategy

  /** What the model needs of a price formatted with `:.4f`: the text has
      no field separator, no delimiter and no trailing white space, and
      `float()` reads it back as a number. */
  predicate Readable(text: string, parse: string -> Option<real>)
  {
    && FieldSep !in text && Delim !in text
    && (|text| == 0 || !IsSpace(text[|text| - 1]))
    && parse(text).Some?
  }

  /** Every symbol's formatted price is readable. */
  ghost predicate PricesReadable(prices: map<string, real>, fmt: real -> string,
                                 parse: string -> Option<real>, symbols: seq<string>)
  {
    forall k :: 0 <= k < |symbols| ==> symbols[k] in prices && Readable(fmt(prices[symbols[k]]), parse)
  }

  ghost predicate Distinct(symbols: seq<string>)
  {
    forall i, j :: 0 <= i < j < |symbols| ==> symbols[i] != symbols[j]
  }

  /** The price each symbol's message reads back as, in symbol order. */
  function Readings(prices: map<string, real>, fmt: real -> string, parse: string -> Option<real>,
                    symbols: seq<string>): (ws: seq<Write>)
    requires forall i :: 0 <= i < |symbols| ==> symbols[i] in prices
    requires forall i :: 0 <= i < |symbols| ==> parse(fmt(prices[symbols[i]])).Some?
    ensures |ws| == |symbols|
    ensures forall i :: 0 <= i < |symbols| ==>
      ws[i] == Write(symbols[i], parse(fmt(prices[symbols[i]])).value)
    decreases |symbols|
  {
    if |symbols| == 0 then []
    else [Write(symbols[0], parse(fmt(prices[symbols[0]])).value)] + Readings(prices, fmt, parse, symbols[1..])
  }

  /** Each price message of a tick causes the write of its own reading. */
  lemma {:induction false} PriceMessagesWrite(prices: map<string, real>, fmt: real -> string,
                                              parse: string -> Option<real>, symbols: seq<string>)
    requires PricesReadable(prices, fmt, parse, symbols)
    requires forall i :: 0 <= i < |symbols| ==> FieldSep !in symbols[i]
    ensures OrderBook.Writes(Gateway.PriceMessages(prices, fmt, symbols), parse) == Readings(prices, fmt, parse, symbols)
    decreases |symbols|
  {
    if |symbols| > 0 {
      var ms := Gateway.PriceMessages(prices, fmt, symbols);
      var text := fmt(prices[symbols[0]]);
      assert Readable(text, parse);
      ClassifyPricePayload(symbols[0], text, parse(text).value, parse);
      assert ms[1..] == Gateway.PriceMessages(prices, fmt, symbols[1..]);
      PriceMessagesWrite(prices, fmt, parse, symbols[1..]);
    }
  }

  /** With distinct symbols, the last write to each is its own reading. */
  lemma {:induction false} LastReading(prices: map<string, real>, fmt: real -> string,
                                       parse: string -> Option<real>, symbols: seq<string>, i: nat)
    requires forall k :: 0 <= k < |symbols| ==> symbols[k] in prices
    requires forall k :: 0 <= k < |symbols| ==> parse(fmt(prices[symbols[k]])).Some?
    requires Distinct(symbols)
    requires i < |symbols|
    ensures LastWrite(Readings(prices, fmt, parse, symbols), symbols[i]) == parse(fmt(prices[symbols[i]]))
    decreases |symbols|
  {
    var ws := Readings(prices, fmt, parse, symbols);
    var rest := Readings(prices, fmt, parse, symbols[1..]);
    assert ws[1..] == rest;
    if i == 0 {
      NoWriteNoLast(rest, symbols[0]);
    } else {
      LastReading(prices, fmt, parse, symbols[1..], i - 1);
    }
  }

  /** A client that reads a whole tick, in whatever chunks, gets exactly the
      tick's messages as frames and nothing left over. */
  lemma TickFramesArrive(tick: Gateway.Tick, chunks: seq<string>)
    requires DelimFree(tick.messages, Delim)
    requires Flatten(chunks) == Join(tick.messages, Delim)
    ensures FeedAll([], chunks, Delim) == Split(tick.messages, [])
  {
    FeedAllSplitsStream([], chunks, Delim);
    assert [] + Flatten(chunks) == Flatten(chunks);
    DecodeEncoded(tick.messages, Delim);
  }

  /** A tick writes each symbol's reading once, and its news writes nothing. */
  lemma TickWrites(prices: map<string, real>, fmt: real -> string, parse: string -> Option<real>,
                   now: real, lastNews: real, sentiment: nat)
    requires PricesReadable(prices, fmt, parse, Gateway.Symbols)
    requires sentiment <= Gateway.MaxSentiment
    ensures OrderBook.Writes(Gateway.BroadcastTick(prices, fmt, now, lastNews, sentiment).messages, parse)
      == Readings(prices, fmt, parse, Gateway.Symbols)
  {
    SymbolsCommaFree();
    PriceMessagesWrite(prices, fmt, parse, Gateway.Symbols);
    NewsWritesNothingInTick(prices, fmt, parse, now, lastNews, sentiment);
  }

  lemma SymbolsCommaFree()
    ensures forall i :: 0 <= i < |Gateway.Symbols| ==> FieldSep !in Gateway.Symbols[i]
  {
  }

  /** A tick writes what its price messages write. */
  lemma NewsWritesNothingInTick(prices: map<string, real>, fmt: real -> string, parse: string -> Option<real>,
                                now: real, lastNews: real, sentiment: nat)
    requires forall i :: 0 <= i < |Gateway.Symbols| ==> Gateway.Symbols[i] in prices
    requires sentiment <= Gateway.MaxSentiment
    ensures OrderBook.Writes(Gateway.BroadcastTick(prices, fmt, now, lastNews, sentiment).messages, parse)
      == OrderBook.Writes(Gateway.PriceMessages(prices, fmt, Gateway.Symbols), parse)
  {
    var priceMessages := Gateway.PriceMessages(prices, fmt, Gateway.Symbols);
    Gateway.TickMessages(prices, fmt, now, lastNews, sentiment);
    if Gateway.NewsDue(now, lastNews) {
      NewsAddsNoWrites(priceMessages, sentiment, parse);
    } else {
      assert priceMessages + [] == priceMessages;
    }
  }

  /** Appending a news frame adds no write. */
  lemma NewsAddsNoWrites(frames: seq<string>, sentiment: nat, parse: string -> Option<real>)
    ensures OrderBook.Writes(frames + [NewsPayload(sentiment)], parse) == OrderBook.Writes(frames, parse)
  {
    OrderBook.WritesAppend(frames, [NewsPayload(sentiment)], parse);
    TickProtocol.ClassifyNewsPayload(sentiment, parse);
    OrderBook.NewsWritesNothing(NewsPayload(sentiment), parse);
    assert OrderBook.Writes(frames, parse) + [] == OrderBook.Writes(frames, parse);
  }

  /** End to end: after the order book reads one gateway tick, in any
      chunking, every symbol holds the price its message reads back as. */
  lemma TickUpdatesOrderBook(prices: map<string, real>, fmt: real -> string, parse: string -> Option<real>,
                             now: real, lastNews: real, sentiment: nat, chunks: seq<string>, i: nat)
    requires PricesReadable(prices, fmt, parse, Gateway.Symbols)
    requires sentiment <= Gateway.MaxSentiment
    requires Flatten(chunks) == Join(Gateway.BroadcastTick(prices, fmt, now, lastNews, sentiment).messages, Delim)
    requires i < |Gateway.Symbols|
    ensures GetPrice(OrderBook.Run(chunks, parse), Gateway.Symbols[i])
      == parse(fmt(prices[Gateway.Symbols[i]]))
  {
    var t := Gateway.BroadcastTick(prices, fmt, now, lastNews, sentiment);
    TickArrives(prices, fmt, parse, now, lastNews, sentiment, chunks);
    TickWrites(prices, fmt, parse, now, lastNews, sentiment);
    ReadingsStored(chunks, t.messages, prices, fmt, parse, i);
  }

  /** A session whose frames write the symbols' readings leaves each symbol
      at its own reading. */
  lemma ReadingsStored(chunks: seq<string>, frames: seq<string>, prices: map<string, real>,
                       fmt: real -> string, parse: string -> Option<real>, i: nat)
    requires PricesReadable(prices, fmt, parse, Gateway.Symbols)
    requires FeedAll([], chunks, Delim).frames == frames
    requires OrderBook.Writes(frames, parse) == Readings(prices, fmt, parse, Gateway.Symbols)
    requires i < |Gateway.Symbols|
    ensures GetPrice(OrderBook.Run(chunks, parse), Gateway.Symbols[i])
      == parse(fmt(prices[Gateway.Symbols[i]]))
  {
    SymbolsDistinct();
    LastReading(prices, fmt, parse, Gateway.Symbols, i);
    var symbol := Gateway.Symbols[i];
    assert LastWrite(OrderBook.Writes(frames, parse), symbol) == parse(fmt(prices[symbol]));
    OrderBook.LatestPriceWins(chunks, parse, symbol);
  }

  /** The gateway's symbols are pairwise different. */
  lemma SymbolsDistinct()
    ensures Distinct(Gateway.Symbols)
  {
    var s := Gateway.Symbols;
    assert s[0][0] == 'A' && s[1][0] == 'M' && s[2][0] == 'G';
  }

  /** The tick's messages are what a reader of the whole tick gets. */
  lemma TickArrives(prices: map<string, real>, fmt: real -> string, parse: string -> Option<real>,
                    now: real, lastNews: real, sentiment: nat, chunks: seq<string>)
    requires PricesReadable(prices, fmt, parse, Gateway.Symbols)
    requires sentiment <= Gateway.MaxSentiment
    requires Flatten(chunks) == Join(Gateway.BroadcastTick(prices, fmt, now, lastNews, sentiment).messages, Delim)
    ensures FeedAll([], chunks, Delim).frames == Gateway.BroadcastTick(prices, fmt, now, lastNews, sentiment).messages
  {
    var t := Gateway.BroadcastTick(prices, fmt, now, lastNews, sentiment);
    assert forall k :: 0 <= k < |Gateway.Symbols| ==> Readable(fmt(prices[Gateway.Symbols[k]]), parse);
    Gateway.TickMessagesAreFrames(prices, fmt, now, lastNews, sentiment);
    TickFramesArrive(t, chunks);
  }


  /** The strategy and the order book see the same price ticks: each
      observation is a write of the same symbol and price. */
  lemma {:induction false} ObservationsAreWrites(frames: seq<string>, parse: string -> Option<real>)
    ensures |Strategy.Observations(frames, parse)| == |OrderBook.Writes(frames, parse)|
    ensures forall k :: 0 <= k < |Strategy.Observations(frames, parse)| ==>
      var o := Strategy.Observations(frames, parse)[k];
      OrderBook.Writes(frames, parse)[k] == Write(o.symbol, o.price)
    decreases |frames|
  {
    if |frames| > 0 {
      ObservationsAreWrites(frames[1..], parse);
      var obs := Strategy.Observations(frames, parse);
      var ws := OrderBook.Writes(frames, parse);
      if Classify(frames[0], parse).PriceTick? {
        assert obs[1..] == Strategy.Observations(frames[1..], parse);
        assert ws[1..] == OrderBook.Writes(frames[1..], parse);
      }
    }
  }

  /** End to end: the strategy reading one gateway tick, in any chunking,
      trades on exactly the tick's price readings, in symbol order; the
      news message changes nothing. */
  lemma TickDrivesStrategy(prices: map<string, real>, fmt: real -> string, parse: string -> Option<real>,
                           now: real, lastNews: real, sentiment: nat, chunks: seq<string>,
                           positions: Strategy.Positions)
    requires PricesReadable(prices, fmt, parse, Gateway.Symbols)
    requires sentiment <= Gateway.MaxSentiment
    requires Flatten(chunks) == Join(Gateway.BroadcastTick(prices, fmt, now, lastNews, sentiment).messages, Delim)
    ensures var t := Gateway.BroadcastTick(prices, fmt, now, lastNews, sentiment);
            var obs := Strategy.Observations(t.messages, parse);
            && Strategy.Run(positions, chunks, parse) == Strategy.Trade(positions, obs)
            && |obs| == |Gateway.Symbols|
            && forall k :: 0 <= k < |obs| ==>
                 obs[k] == Strategy.Observation(Gateway.Symbols[k], parse(fmt(prices[Gateway.Symbols[k]])).value)
  {
    var t := Gateway.BroadcastTick(prices, fmt, now, lastNews, sentiment);
    TickArrives(prices, fmt, parse, now, lastNews, sentiment, chunks);
    Strategy.FramesTradeOnObservations(positions, t.messages, parse);
    TickWrites(prices, fmt, parse, now, lastNews, sentiment);
    ObservationsAreWrites(t.messages, parse);
  }
}
