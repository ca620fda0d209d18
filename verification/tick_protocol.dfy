/** The text protocol of the market-data feed: the frames the gateway writes
    (src/gateway.py) and how the strategy and the order book read each frame
    (`_handle_message` in src/strategy.py and src/orderbook.py, which share
    one classification). */
module TickProtocol {
  import opened Wrappers
  import opened Framing
  import opened Text

  /** The separator between fields of a feed message. */
  const FieldSep: char := ','

  /** What a consumer makes of one frame, after `strip()` and `split(",")`. */
  datatype Message =
    | PriceTick(symbol: string, price: real)  // PRICE with three fields and a number
    | BadPrice(text: string)                  // PRICE with three fields, price unreadable
    | News(sentiment: string)                 // NEWS: only logged
    | Unknown(text: string)                   // everything else, the empty frame included

  /** `PRICE,<symbol>,<price>`: the payload of a price frame. */
  function PricePayload(symbol: string, priceText: string): (payload: string)
    ensures FieldSep !in symbol && FieldSep !in priceText ==>
      Fields(payload, FieldSep) == ["PRICE", symbol, priceText]
  {
    var payload := "PRICE" + [FieldSep] + symbol + [FieldSep] + priceText;
    if FieldSep !in symbol && FieldSep !in priceText then
      FieldsOfThree("PRICE", symbol, priceText, FieldSep);
      payload
    else
      payload
  }

  /** `NEWS,<sentiment>`: the payload of a news frame. */
  function NewsPayload(sentiment: nat): (payload: string)
    ensures Fields(payload, FieldSep) == ["NEWS", Decimal(sentiment)]
  {
    var digits := Decimal(sentiment);
    assert FieldSep !in digits by {
      forall i | 0 <= i < |digits| ensures digits[i] != FieldSep {
        assert IsDigit(digits[i]);
      }
    }
    FieldsOfTwo("NEWS", digits, FieldSep);
    "NEWS" + [FieldSep] + digits
  }

  /** Classify one received frame. `parse` stands for Python's `float()`,
      which either yields a number or raises `ValueError` (`None`). */
  function Classify(frame: string, parse: string -> Option<real>): (m: Message)
    ensures m.PriceTick? || m.BadPrice? ==> Count(Strip(frame), FieldSep) == 2
    ensures m.PriceTick? ==>
      var parts := Fields(Strip(frame), FieldSep);
      && Strip(frame) == PricePayload(m.symbol, parts[2])
      && FieldSep !in m.symbol
      && parse(parts[2]) == Some(m.price)
    ensures Fields(Strip(frame), FieldSep)[0] == "PRICE" && Count(Strip(frame), FieldSep) != 2
      ==> m == Unknown(Strip(frame))
    ensures Strip(frame) == [] ==> m == Unknown([])
  {
    var msg := Strip(frame);
    var parts := Fields(msg, FieldSep);
    UnsplitThree(parts, FieldSep);
    ClassifyFields(msg, parts, parse)
  }

  /** The decision on the stripped message `msg` and its fields `parts`. */
  function ClassifyFields(msg: string, parts: seq<string>, parse: string -> Option<real>): Message
    requires |parts| > 0
  {
    if parts[0] == "PRICE" && |parts| == 3 then
      match parse(parts[2])
      case Some(p) => PriceTick(parts[1], p)
      case None => BadPrice(msg)
    else if parts[0] == "NEWS" then
      News(if |parts| > 1 then parts[1] else "?")
    else
      Unknown(msg)
  }

  lemma UnsplitThree(parts: seq<string>, sep: char)
    requires |parts| > 0
    ensures |parts| == 3 ==> Unsplit(parts, sep) == parts[0] + [sep] + parts[1] + [sep] + parts[2]
  {
    if |parts| == 3 {
      assert parts[1..][1..] == [parts[2]];
      assert Unsplit(parts[1..][1..], sep) == parts[2];
      assert Unsplit(parts[1..], sep) == parts[1] + [sep] + parts[2];
    }
  }

  /** A price payload whose price text does not end in white space has no
      white space to strip. */
  lemma PricePayloadTrimmed(symbol: string, priceText: string)
    requires |priceText| == 0 || !IsSpace(priceText[|priceText| - 1])
    ensures Trimmed(PricePayload(symbol, priceText))
  {
    var payload := PricePayload(symbol, priceText);
    assert payload[0] == 'P';
    assert payload[|payload| - 1] == (if |priceText| == 0 then FieldSep else priceText[|priceText| - 1]);
  }

  /** Round trip of the price feed: the payload the gateway writes for a
      symbol is read back as a price tick for that symbol, carrying the
      value `float()` reads from the price text. */
  lemma ClassifyPricePayload(symbol: string, priceText: string, p: real,
                             parse: string -> Option<real>)
    requires FieldSep !in symbol && FieldSep !in priceText
    requires |priceText| == 0 || !IsSpace(priceText[|priceText| - 1])
    requires parse(priceText) == Some(p)
    ensures Classify(PricePayload(symbol, priceText), parse) == PriceTick(symbol, p)
  {
    var payload := PricePayload(symbol, priceText);
    PricePayloadTrimmed(symbol, priceText);
    StripTrimmed(payload);
    FieldsOfThree("PRICE", symbol, priceText, FieldSep);
    assert Classify(payload, parse) == ClassifyFields(payload, ["PRICE", symbol, priceText], parse);
  }

  /** A price payload whose price text `float()` rejects is reported and
      nothing else happens. */
  lemma ClassifyUnreadablePrice(symbol: string, priceText: string,
                                parse: string -> Option<real>)
    requires FieldSep !in symbol && FieldSep !in priceText
    requires |priceText| == 0 || !IsSpace(priceText[|priceText| - 1])
    requires parse(priceText) == None
    ensures Classify(PricePayload(symbol, priceText), parse) == BadPrice(PricePayload(symbol, priceText))
  {
    var payload := PricePayload(symbol, priceText);
    PricePayloadTrimmed(symbol, priceText);
    StripTrimmed(payload);
    FieldsOfThree("PRICE", symbol, priceText, FieldSep);
    assert Classify(payload, parse) == ClassifyFields(payload, ["PRICE", symbol, priceText], parse);
  }

  /** Round trip of the news feed: a news payload is read as news carrying
      the sentiment's decimal text. */
  lemma ClassifyNewsPayload(sentiment: nat, parse: string -> Option<real>)
    ensures Strip(NewsPayload(sentiment)) == NewsPayload(sentiment)
    ensures Classify(NewsPayload(sentiment), parse) == News(Decimal(sentiment))
  {
    var digits := Decimal(sentiment);
    var payload := NewsPayload(sentiment);
    assert payload[|payload| - 1] == digits[|digits| - 1];
    assert Trimmed(payload);
    StripTrimmed(payload);
    FieldsOfTwo("NEWS", digits, FieldSep);
    assert Classify(payload, parse) == ClassifyFields(payload, ["NEWS", digits], parse);
  }

  /** The empty frame produced by two delimiters in a row reaches the
      unknown-message branch; it is not skipped. */
  lemma ClassifyEmptyFrame(parse: string -> Option<real>)
    ensures Classify([], parse) == Unknown([])
  {
  }
}
