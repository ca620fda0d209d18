/** The order book of src/orderbook.py: it reads the gateway's feed and is
    meant to store the latest price of every symbol in a price book. As
    written it stores nothing (`AsWrittenLosesPrice`); `HandleMessage` is
    the corrected handler. */
module OrderBook {
  import opened Wrappers
  import opened Framing
  import opened TickProtocol
  import opened PriceStore

  /** `_handle_message`: a well-formed price frame updates its symbol; no
      other frame touches the book. */
  function HandleMessage(book: PriceBook, frame: string, parse: string -> Option<real>): (b: PriceBook)
    ensures forall s :: GetPrice(b, s) != GetPrice(book, s) ==>
      Classify(frame, parse).PriceTick? && s == Classify(frame, parse).symbol
    ensures Classify(frame, parse).PriceTick? ==>
      GetPrice(b, Classify(frame, parse).symbol) == Some(Classify(frame, parse).price)
    ensures !Classify(frame, parse).PriceTick? ==> b == book
  {
    match Classify(frame, parse)
    case PriceTick(symbol, price) => UpdatePrice(book, symbol, price)
    case _ => book
  }

  /** The frames of one session handled in arrival order. */
  function HandleFrames(book: PriceBook, frames: seq<string>, parse: string -> Option<real>): PriceBook
    decreases |frames|
  {
    if |frames| == 0 then book
    else HandleFrames(HandleMessage(book, frames[0], parse), frames[1..], parse)
  }

  /** `run` on a fresh book: the feed read in chunks from an empty buffer. */
  function Run(chunks: seq<string>, parse: string -> Option<real>): (b: PriceBook)
    ensures b == ApplyWrites(Empty, Writes(SplitFrames(Flatten(chunks), Delim).frames, parse))
  {
    FeedAllSplitsStream([], chunks, Delim);
    assert [] + Flatten(chunks) == Flatten(chunks);
    FramesAreWrites(Empty, FeedAll([], chunks, Delim).frames, parse);
    HandleFrames(Empty, FeedAll([], chunks, Delim).frames, parse)
  }

  /** The price-book writes the frames cause, in order. */
  function Writes(frames: seq<string>, parse: string -> Option<real>): (ws: seq<Write>)
    ensures |ws| <= |frames|
    decreases |frames|
  {
    if |frames| == 0 then []
    else
      var m := Classify(frames[0], parse);
      (if m.PriceTick? then [Write(m.symbol, m.price)] else []) + Writes(frames[1..], parse)
  }

  /** The writes of two runs of frames are the writes of each, in order. */
  lemma {:induction false} WritesAppend(a: seq<string>, b: seq<string>, parse: string -> Option<real>)
    ensures Writes(a + b, parse) == Writes(a, parse) + Writes(b, parse)
    decreases |a|
  {
    if |a| == 0 {
      assert a + b == b;
    } else {
      var m := Classify(a[0], parse);
      var head := if m.PriceTick? then [Write(m.symbol, m.price)] else [];
      ConsAppend(a, b);
      WritesAppend(a[1..], b, parse);
      Reassociate(Writes(a + b, parse), Writes(a, parse), Writes(b, parse), head,
              Writes(a[1..] + b, parse), Writes(a[1..], parse));
    }
  }

  /** Handling frames is applying their writes, one per well-formed price
      frame and none for any other frame. */
  lemma {:induction false} FramesAreWrites(book: PriceBook, frames: seq<string>, parse: string -> Option<real>)
    ensures HandleFrames(book, frames, parse) == ApplyWrites(book, Writes(frames, parse))
    decreases |frames|
  {
    if |frames| > 0 {
      var m := Classify(frames[0], parse);
      FramesAreWrites(HandleMessage(book, frames[0], parse), frames[1..], parse);
      var ws := Writes(frames, parse);
      if m.PriceTick? {
        assert ws[0] == Write(m.symbol, m.price);
        assert ws[1..] == Writes(frames[1..], parse);
      } else {
        assert ws == Writes(frames[1..], parse);
      }
    }
  }

  /** A price payload with a readable price causes exactly one write, of
      that symbol and that price. */
  lemma PricePayloadWritesOnce(symbol: string, priceText: string, p: real,
                               parse: string -> Option<real>)
    requires FieldSep !in symbol && FieldSep !in priceText
    requires |priceText| == 0 || !Text.IsSpace(priceText[|priceText| - 1])
    requires parse(priceText) == Some(p)
    ensures Writes([PricePayload(symbol, priceText)], parse) == [Write(symbol, p)]
  {
    ClassifyPricePayload(symbol, priceText, p, parse);
    assert [PricePayload(symbol, priceText)][1..] == [];
  }

  /** A price payload whose price does not parse writes nothing. */
  lemma UnreadablePriceWritesNothing(symbol: string, priceText: string,
                                     parse: string -> Option<real>)
    requires FieldSep !in symbol && FieldSep !in priceText
    requires |priceText| == 0 || !Text.IsSpace(priceText[|priceText| - 1])
    requires parse(priceText) == None
    ensures Writes([PricePayload(symbol, priceText)], parse) == []
  {
    ClassifyUnreadablePrice(symbol, priceText, parse);
    assert [PricePayload(symbol, priceText)][1..] == [];
  }

  /** News frames never write the book: any frame whose first field, once
      stripped, is `NEWS` takes the news branch, whatever follows. */
  lemma NewsWritesNothing(frame: string, parse: string -> Option<real>)
    requires Text.Fields(Text.Strip(frame), FieldSep)[0] == "NEWS"
    ensures Writes([frame], parse) == []
  {
    assert !Classify(frame, parse).PriceTick?;
    assert [frame][1..] == [];
  }

  /** After a session, each symbol holds the price of its last well-formed
      price frame, and symbols never priced read as `None`. */
  lemma LatestPriceWins(chunks: seq<string>, parse: string -> Option<real>, symbol: string)
    ensures GetPrice(Run(chunks, parse), symbol)
      == LastWrite(Writes(FeedAll([], chunks, Delim).frames, parse), symbol)
  {
    var frames := FeedAll([], chunks, Delim).frames;
    FramesAreWrites(Empty, frames, parse);
    LastWriteWins(Empty, Writes(frames, parse), symbol);
  }

  /** Chunk boundaries in the feed do not change the resulting book. */
  lemma RunIgnoresChunking(c1: seq<string>, c2: seq<string>, parse: string -> Option<real>)
    requires Flatten(c1) == Flatten(c2)
    ensures Run(c1, parse) == Run(c2, parse)
  {
    ChunkingIrrelevant(c1, c2, Delim);
  }

  /** `_handle_message` as src/orderbook.py writes it: a well-formed price
      frame calls `self.spb.update`, which `SharedPriceBook` does not
      define. The `AttributeError` is not the `ValueError` the handler
      catches, so it ends `run`; `None` marks that end. */
  function HandleMessageAsWritten(book: PriceBook, frame: string, parse: string -> Option<real>)
    : (r: Option<PriceBook>)
    ensures r.None? <==> Classify(frame, parse).PriceTick?
    ensures r.Some? ==> r.value == book
  {
    match Classify(frame, parse)
    case PriceTick(_, _) => None
    case _ => Some(book)
  }

  /** `run` as written: frames are handled until one raises. No sequence
      of frames ever stores a price. */
  function HandleFramesAsWritten(book: PriceBook, frames: seq<string>, parse: string -> Option<real>)
    : (b: PriceBook)
    ensures b == book
    decreases |frames|
  {
    if |frames| == 0 then book
    else
      match HandleMessageAsWritten(book, frames[0], parse)
      case None => book
      case Some(next) => HandleFramesAsWritten(next, frames[1..], parse)
  }

  /** Any well-formed price frame, `PRICE,AAPL,100.5` among them: as
      written the book stays empty, while the handler that calls
      `update_price` stores the price. */
  lemma AsWrittenLosesPrice(symbol: string, priceText: string, p: real,
                            parse: string -> Option<real>)
    requires FieldSep !in symbol && FieldSep !in priceText
    requires |priceText| == 0 || !Text.IsSpace(priceText[|priceText| - 1])
    requires parse(priceText) == Some(p)
    ensures GetPrice(HandleFramesAsWritten(Empty, [PricePayload(symbol, priceText)], parse), symbol) == None
    ensures GetPrice(HandleFrames(Empty, [PricePayload(symbol, priceText)], parse), symbol) == Some(p)
  {
    var frame := PricePayload(symbol, priceText);
    ClassifyPricePayload(symbol, priceText, p, parse);
    assert [frame][1..] == [];
  }
}
