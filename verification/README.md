# Market-data gateway, strategy, order book and order manager — a Dafny model

The system is a small trading pipeline built from four processes and one shared data structure:

- a **gateway** broadcasts `PRICE,<symbol>,<price>*` and `NEWS,<sentiment>*` messages to every subscribed client. It evicts clients whose send fails.
- a **strategy** reads that feed and runs a per-symbol position rule: it buys one lot of 10 below 100 and sells it above 105. Each order goes to the order manager as a JSON record.
- an **order book** reads the same feed and is meant to store the latest price of every symbol in a **price book**, a lock-protected dictionary. As written it stores nothing (see Findings).
- an **order manager** reads `*`-terminated JSON orders. It answers an order carrying the four fields `symbol`, `side`, `qty` and `price` with `ACCEPTED` plus those fields, and any other order with `REJECTED` / `Missing fields`.

The model is made of immutable values and pure functions. One generic function models the `*` framing that the three readers share. The socket reads become a sequence of chunks. A broadcast's send failures become a predicate on clients. Python built-ins whose behaviour is not modelled become function parameters:
- `float()` becomes `parse: string -> Option<real>`;
- `:.4f` formatting becomes `fmt: real -> string`;
- `json.loads` of a frame's decoded and stripped text becomes `loads: string -> Option<Json.Value>`;
- `json.dumps` becomes `dumps: Json.Value -> string`.

The modules, in dependency order:

| file | module | what it models |
|---|---|---|
| wrappers.dfy | Wrappers | `Option` |
| framing.dfy | Framing | the `while DELIM in buffer: msg, buffer = buffer.split(DELIM, 1)` loop, one chunk at a time or over a whole stream |
| text.dfy | Text | `str.split(',')`, `str.strip()` (Python's white-space set) and decimal rendering of an `int` |
| tick_protocol.dfy | TickProtocol | the `PRICE` / `NEWS` messages and the classification both `_handle_message` functions perform |
| price_store.dfy | PriceStore | `SharedPriceBook` |
| json.dfy | Json | decoded JSON values |
| strategy.dfy | Strategy | `Strategy.run`, `_handle_message`, `_maybe_trade` and the order record `_send_order` builds |
| order_book.dfy | OrderBook | `OrderBook.run` and `_handle_message`, plus the as-written handler (see Findings) |
| order_manager.dfy | OrderManager | `_handle_client` and `_process_order` |
| gateway.dfy | Gateway | `_broadcast`, the accept-append, `stop`, and one pass of `_broadcast_loop` |
| feed.dfy | Feed | end to end: a gateway tick read by the order book and by the strategy |

## Behaviour worth knowing

These follow from the code as written:


- **Empty frames are not skipped.** Two delimiters in a row yield an empty frame, and it reaches the unknown-message branch (`Framing.EmptyFrameKept`, `TickProtocol.ClassifyEmptyFrame`).
- **Order validation.** Validation is key presence only. Any `side` and any `qty`, including a non-positive one, is accepted (`OrderManager.VerdictDependsOnlyOnKeys`).
- **Invalid JSON.** A frame that is not valid JSON gets no reply at all, not a `REJECTED` one (`OrderManager.InvalidJsonNoReply`).
- **Open symbol set.** The price book has no closed symbol set. Any symbol can be written, and its key is created on the first write (`PriceStore.UpdatePrice`).
- **Prices 101, 99, 101 buy at 99.** 99 is below 100 and the position is flat (`Strategy.DipBelowThresholdBuys`).
- **Negative prices.** Nothing clamps a price at 0.
- **Non-object JSON.** Python's `k in order` also works on lists and strings:
  - a decoded list or string that lacks a key is rejected;
  - one that has all four keys passes the test, then raises on `order["symbol"]` and gets no reply;
  - any other scalar raises at the test and gets no reply (`OrderManager.ProcessOrder`, `OrderManager.ListOrders`).
- **A `*` can come back inside a reply.** An order whose symbol is written with the JSON escape `\u002a` has no `*` in its frame and decodes to a symbol holding `*`. The confirmation echoes that symbol, `json.dumps` writes the `*` as is, and a client splitting the replies on `*` (`src/strategy.py:136`) cuts that reply in two (`OrderManager.EchoedDelimiterSplitsReply`). `OrderManager.ClientRecoversReplies` therefore requires that no serialised reply holds `*`.
- **Position after a failed send.** The strategy updates its position even when sending the order fails: `_send_order` swallows the exception.

## Model

| member | source | states |
|---|---|---|
| Framing.SplitFrames | src/strategy.py:70-73 | the frames split off a buffer are free of `*`, the leftover holds no `*`, and each frame followed by `*`, then the leftover, rebuilds the buffer |
| Framing.DrainBuffer | src/orderbook.py:55-59 | the `while DELIM in buffer` loop ends with the same frames and leftover as the split function, with the round trip as loop invariant |
| Framing.SplitUnique | src/order_manager.py:59-63 | any delimiter-free frames and delimiter-free leftover that rebuild the buffer are exactly what the loop produces |
| Framing.DecodeEncoded | src/order_manager.py:90-91 | a stream of `*`-terminated delimiter-free payloads splits back into exactly those payloads, nothing left over |
| Framing.FramesMatchDelimiters | src/order_manager.py:61-63 | one frame per delimiter in the buffer, every complete frame and no more |
| Framing.EmptyFrameKept | src/strategy.py:71-73 | two consecutive delimiters yield one empty frame each; empty frames are not dropped |
| Framing.FeedAllSplitsStream | src/strategy.py:64-73 | receiving chunks one by one and draining after each gives the same frames and leftover as splitting the whole stream at once |
| Framing.ChunkingIrrelevant | src/orderbook.py:50-59 | two chunkings of the same byte stream yield the same frames in the same order and the same leftover |
| Framing.CountJoin | src/order_manager.py:90-91 | encoding n delimiter-free payloads writes exactly n delimiters |
| Framing.FeedAll | src/strategy.py:64-73 | after any non-empty sequence of reads the leftover holds no delimiter; `Framing.FeedAllSplitsStream` shows the frames are those of the whole stream |
| Framing.CountAbsent | src/order_manager.py:61 | no delimiter is counted exactly when none is present |
| Text.Fields | src/strategy.py:85 | `split(',')` gives one more field than there are commas, no field holds a comma, and re-joining with commas gives the text back |
| Text.FieldsOfUnsplit | src/orderbook.py:71 | splitting comma-joined comma-free fields gives back exactly those fields |
| Text.Strip | src/strategy.py:73 | the stripped text has no white space at either end and is no longer than the input |
| Text.StripInfix | src/orderbook.py:59 | the stripped text is a contiguous slice of the input with only white space cut at each end |
| Text.StripIdempotent | src/strategy.py:73 | stripping twice is stripping once |
| Text.Decimal | src/gateway.py:69 | the text written for an int is non-empty, all digits, without a leading zero, with 0 written `0`, and reads back as that int |
| TickProtocol.Classify | src/strategy.py:83-103 | a price tick comes only from a stripped frame with exactly three fields, first `PRICE`, whose symbol and price text rebuild the frame and whose price text `float()` reads as the tick's price; `PRICE` with another field count and the empty frame are unknown |
| TickProtocol.ClassifyPricePayload | src/orderbook.py:75-79 | the price message the gateway writes for a symbol reads back as a tick of that symbol with the parsed price |
| TickProtocol.ClassifyUnreadablePrice | src/strategy.py:91-96 | a price message whose price text does not parse is reported as invalid, not acted upon |
| TickProtocol.ClassifyNewsPayload | src/strategy.py:98-100 | the news message the gateway writes reads back as news carrying the sentiment digits |
| TickProtocol.ClassifyEmptyFrame | src/strategy.py:102-103 | the empty frame reaches the unknown-message branch |
| TickProtocol.PricePayload | src/gateway.py:64 | `PRICE,<symbol>,<price>` splits on commas into exactly those three fields when neither part holds a comma |
| TickProtocol.NewsPayload | src/gateway.py:69 | `NEWS,<sentiment>` splits on commas into exactly `NEWS` and the sentiment's decimal digits |
| PriceStore.UpdatePrice | src/shared_memory_utils.py:15-18 | after an update the symbol reads as the new price, every other symbol reads as before, and the key set gains exactly that symbol |
| PriceStore.GetAllPrices | src/shared_memory_utils.py:27-30 | the snapshot holds a symbol iff `get_price` returns a price for it, with the same price |
| PriceStore.LastWriteWins | src/shared_memory_utils.py:15-25 | after any sequence of updates each symbol reads as its last update, or as before when it was not updated |
| PriceStore.NeverWrittenIsUnset | src/shared_memory_utils.py:22-25 | a symbol no update names reads as `None` in a fresh book |
| PriceStore.DisjointWritersInterleave | src/shared_memory_utils.py:15-18 | however the lock interleaves two writers, a symbol only one of them writes ends with that writer's last value |
| PriceStore.SnapshotIsACopy | src/shared_memory_utils.py:27-30 | updates to other symbols after a snapshot leave the snapshot's entry for a symbol equal to the next snapshot's |
| PriceStore.GetPrice | src/shared_memory_utils.py:22-25 | `get_price` reads `None` exactly for a symbol never stored, and the stored price otherwise; `PriceStore.LastWriteWins` checks it against the writes made |
| Strategy.MaybeTrade | src/strategy.py:106-115 | a BUY of 10 is sent iff price < 100 and the position is at most 0, a SELL of 10 iff price > 105 and the position is positive; positions change iff an order is sent, only at the traded symbol, to 10 after a BUY and 0 after a SELL |
| Strategy.HandleMessage | src/strategy.py:83-103 | only a price tick reaches the trading rule; news, invalid-price and unknown frames send nothing and change no position |
| Strategy.FramesTradeOnObservations | src/strategy.py:70-94 | handling a session's frames is trading on its price observations in arrival order, whatever other frames it holds |
| Strategy.RunIgnoresChunking | src/strategy.py:64-73 | the orders and positions do not depend on how the feed is cut into reads |
| Strategy.TradeKeepsPositionsValid | src/strategy.py:110-115 | from positions that are all 0 or 10 they stay 0 or 10, and every order is for 10 |
| Strategy.OrdersAlternate | src/strategy.py:108-115 | per symbol the sides alternate, starting with SELL exactly when a position is open |
| Strategy.FirstOrderIsBuy | src/strategy.py:31 | from the empty position map each symbol's orders go BUY, SELL, BUY, … |
| Strategy.BuyHoldSellExample | src/strategy.py:106-115 | prices 95, 101, 106 give BUY 10 at 95, nothing, SELL 10 at 106, leaving the position flat |
| Strategy.DipBelowThresholdBuys | src/strategy.py:110-112 | prices 101, 99, 101 give a single BUY at 99 and a position of 10 |
| Strategy.Run | src/strategy.py:61-73 | the strategy's positions and orders are those of trading on the price observations of the frames of the whole stream, whatever the chunking |
| Strategy.OrderJson | src/strategy.py:120-125 | the order record has exactly the keys `symbol`, `side`, `qty` and `price`, and the order is read back from it unchanged |
| OrderBook.HandleMessage | src/orderbook.py:69-89 | only a price tick changes the book, only at its symbol, which then reads as the tick's price |
| OrderBook.FramesAreWrites | src/orderbook.py:57-59 | handling frames is applying one update per price tick, in order, and none for any other frame |
| OrderBook.WritesAppend | src/orderbook.py:57-59 | the updates of two runs of frames are those of the first run followed by those of the second |
| OrderBook.PricePayloadWritesOnce | src/orderbook.py:75-79 | a readable price message causes exactly one update, of its symbol to its price |
| OrderBook.UnreadablePriceWritesNothing | src/orderbook.py:77-82 | a price message whose price does not parse updates nothing |
| OrderBook.NewsWritesNothing | src/orderbook.py:84-86 | a frame whose first field, after stripping, is `NEWS` never updates the book, whatever its other fields |
| OrderBook.LatestPriceWins | src/orderbook.py:55-59 | after a session each symbol holds the price of its last price tick, and symbols never priced read as `None` |
| OrderBook.RunIgnoresChunking | src/orderbook.py:50-59 | the resulting book does not depend on how the feed is cut into reads |
| OrderBook.HandleMessageAsWritten | src/orderbook.py:75-82 | as written, a price tick ends the session (the update method does not exist) and no frame changes the book |
| OrderBook.HandleFramesAsWritten | src/orderbook.py:57-59 | as written, no sequence of frames stores any price (that reading stops at the first price tick is `OrderBook.HandleMessageAsWritten`) |
| OrderBook.AsWrittenLosesPrice | src/orderbook.py:79 | for any well-formed price frame, `PRICE,AAPL,100.5` among them, the book stays empty as written and holds the frame's price when `update_price` is called |
| OrderBook.Run | src/orderbook.py:46-59 | the book after a session is the empty book with the writes of the frames of the whole stream applied, whatever the chunking |
| OrderManager.ProcessOrder | src/order_manager.py:70-97 | invalid JSON gets no reply and a JSON object always gets one; other JSON gets a reply exactly when the key test says a key is missing, so a list or string lacking a key is rejected, while scalars and four-key lists or strings get none; the reply is ACCEPTED iff the order is an object with all four keys, echoing exactly their four values; every rejection gives `Missing fields` |
| OrderManager.VerdictDependsOnlyOnKeys | src/order_manager.py:78 | two orders with the same required keys present get the same verdict, whatever their values |
| OrderManager.ExtraKeysIgnored | src/order_manager.py:79-85 | dropping every key but the required four changes nothing in the reply |
| OrderManager.ConfirmationJson | src/order_manager.py:79-87 | an accepted confirmation carries exactly `status` = `ACCEPTED` and the four order keys with the echoed values, a rejection exactly `status` = `REJECTED` and its `reason`; a client reading the dictionary back gets the confirmation unchanged |
| OrderManager.SessionAppend | src/order_manager.py:61-63 | a bad frame does not end the session: the replies to two runs of frames are the replies to each, in order |
| OrderManager.InvalidJsonNoReply | src/order_manager.py:94-95 | a frame that is not JSON gets no reply |
| OrderManager.OneReplyPerOrder | src/order_manager.py:61-63 | when every frame is a JSON object there is one reply per frame, the i-th answering the i-th |
| OrderManager.HandleClientIgnoresChunking | src/order_manager.py:54-63 | the replies do not depend on how the connection's bytes are cut into reads |
| OrderManager.Serialised | src/order_manager.py:90 | one serialised text per confirmation, the i-th the serialisation of the i-th |
| OrderManager.ReplyStreamIsJoin | src/order_manager.py:90-91 | what goes back on the connection is each serialised confirmation followed by `*` |
| OrderManager.ClientRecoversReplies | src/order_manager.py:90-91 | a client splitting the reply stream on `*` recovers each serialised confirmation in order, when no serialised confirmation contains `*` |
| OrderManager.StrategyOrdersAccepted | src/strategy.py:120-125 | every order record the strategy builds is accepted, with its symbol, side, quantity and price echoed |
| OrderManager.RejectionKeepsConnection | src/order_manager.py:86-87 | an order without `qty` is rejected and the next complete order on the same connection is still accepted |
| OrderManager.ListOrders | src/order_manager.py:78 | a JSON list naming the four keys gets no reply; an empty list is rejected |
| OrderManager.Contains | src/order_manager.py:78 | `k in order` raises (no value) unless the order decoded to a dictionary, list or string; on a dictionary it is key membership, on a list it is membership of the key as a string element, and on a string it holds exactly when the key occurs at some position |
| OrderManager.InfixAt | src/order_manager.py:78 | Python's substring test on strings holds exactly when the key is the slice at some position |
| OrderManager.HasAllKeys | src/order_manager.py:78 | the key test raises for scalars, and succeeds exactly when each of the four required keys is in the order |
| OrderManager.Session | src/order_manager.py:61-63 | a session never sends more replies than it received frames |
| OrderManager.NoJsonNoReplies | src/order_manager.py:61-63 | a session none of whose frames is JSON sends no reply at all |
| OrderManager.HandleClient | src/order_manager.py:50-63 | the replies on a connection are those to the frames of the whole stream, whatever the chunking |
| OrderManager.CompleteOrderAccepted | src/order_manager.py:78-85 | a frame holding an order with all four keys gets one reply, the acceptance echoing them |
| OrderManager.IncompleteOrderRejected | src/order_manager.py:86-87 | a frame holding an order that lacks a required key gets one reply, the rejection |
| OrderManager.ReplyWithDelimiterSplits | src/order_manager.py:90-91 | a serialised reply holding `*` reaches the client as two frames or more |
| OrderManager.EchoedDelimiterSplitsReply | src/order_manager.py:78-91 | an order whose symbol decodes to a text holding `*` arrives as one frame and is accepted, and its reply reaches the client as two frames or more, when `dumps` keeps that `*` in the serialised reply |
| Gateway.Broadcast | src/gateway.py:74-93 | every client is attempted once, in list order; the clients closed are exactly those whose send failed, in order; the new list is exactly the clients whose send succeeded, in order |
| Gateway.RemoveFirst | src/gateway.py:90 | `list.remove` succeeds iff the element is present; it removes the first occurrence and keeps every other element in order |
| Gateway.RemoveFirstDead | src/gateway.py:83-91 | removing the first dead client keeps every survivor and leaves the remaining dead, in order |
| Gateway.SurvivorsMembership | src/gateway.py:77-81 | a client is kept iff it was listed and its send did not fail |
| Gateway.BroadcastPartitions | src/gateway.py:76-93 | kept and evicted clients together are the old list, counting repetitions |
| Gateway.SurvivorsKeepOrder | src/gateway.py:83-91 | the kept clients keep their relative order |
| Gateway.SurvivorsAppend | src/gateway.py:77-81 | the outcome for a list is the outcome for its front followed by that for its back |
| Gateway.Accept | src/gateway.py:48-49 | a new connection goes at the end and the existing clients are untouched |
| Gateway.AcceptedLast | src/gateway.py:48-49 | a newly accepted client is broadcast to after the others, and is kept at the end unless its own send fails |
| Gateway.Stop | src/gateway.py:101-107 | `stop` closes every client and leaves the list empty |
| Gateway.StoppedReachesNobody | src/gateway.py:101-107 | after `stop` a broadcast reaches and evicts nobody |
| Gateway.ReceivedUntilFirstFailure | src/gateway.py:74-93 | over several broadcasts, a listed client receives every message before its first failed send and none after it |
| Gateway.StaysIffNeverFailed | src/gateway.py:74-93 | after several broadcasts a client is still listed iff it was listed and none of its sends failed |
| Gateway.FirstFailure | src/gateway.py:77-81 | the first failing broadcast of a client: every earlier one succeeds for it and that one fails |
| Gateway.NextLastNews | src/gateway.py:67-71 | `last_news` becomes the current time exactly when 3 seconds have passed since it was set, and stays put otherwise |
| Gateway.PriceMessages | src/gateway.py:63-65 | one price message per symbol in `SYMBOLS` order, carrying that symbol's formatted price |
| Gateway.BroadcastTick | src/gateway.py:55-72 | a tick sends the price messages, then a news message with the drawn sentiment iff `now - last_news >= 3.0`, and `last_news` becomes `now` exactly then |
| Gateway.NewsIsSpaced | src/gateway.py:67-71 | successive news messages, and the first after the start, are at least 3 seconds apart |
| Gateway.SlowTicksAllCarryNews | src/gateway.py:67-71 | when ticks come at least 3 seconds apart, every tick carries news |
| Gateway.TickMessagesAreFrames | src/gateway.py:63-70 | no message of a tick contains the delimiter, so each goes out as exactly one frame, when every formatted price is free of `*` |
| Gateway.NewsSentimentInRange | src/gateway.py:68-69 | the news message reads back as news whose sentiment is decimal digits worth at most 100 |
| Feed.Readings | src/orderbook.py:76-78 | one reading per symbol, in symbol order: the symbol and the value its formatted price parses to |
| Feed.PriceMessagesWrite | src/orderbook.py:75-79 | each price message of a tick causes the update of its own symbol to its own reading, when every formatted price is readable (no comma, no `*`, no trailing white space, and it parses) |
| Feed.LastReading | src/shared_memory_utils.py:15-18 | with distinct symbols the last update of each is its own reading |
| Feed.TickFramesArrive | src/strategy.py:64-73 | a client that reads one whole tick, in any chunking, gets exactly its messages as frames with nothing left over |
| Feed.TickWrites | src/orderbook.py:75-86 | the order book updates each symbol of a tick once with its reading, and the tick's news updates nothing, when every formatted price is readable (no comma, no `*`, no trailing white space, and it parses) |
| Feed.TickUpdatesOrderBook | src/orderbook.py:55-79 | after reading one gateway tick in any chunking, the order book holds for every symbol the value its formatted price parses to, when every formatted price is readable (no comma, no `*`, no trailing white space, and it parses) |
| Feed.ObservationsAreWrites | src/strategy.py:89-94 | the strategy and the order book act on the same price ticks, one for one |
| Feed.TickDrivesStrategy | src/strategy.py:64-103 | reading one gateway tick in any chunking, the strategy trades on exactly the tick's prices in symbol order, and the news changes nothing, when every formatted price is readable (no comma, no `*`, no trailing white space, and it parses) |

## Findings

| source | as written | input that shows it | evidently intended | confidence | as-written member | corrected member |
|---|---|---|---|---|---|---|
| src/orderbook.py:79 | `_handle_message` stores a price with `self.spb.update(symbol, price)`, which `SharedPriceBook` does not define. The `AttributeError` is outside the `except ValueError`, so it ends `run` and no price is ever stored. The constructor call `SharedPriceBook(SYMBOLS)` at line 29 fails likewise: the class takes no arguments. | the frame `PRICE,AAPL,100.5` | store the price with `update_price(symbol, price)` and keep reading | high (not executed) | OrderBook.AsWrittenLosesPrice | OrderBook.HandleMessage |

The rest of the model uses the corrected handler, `OrderBook.HandleMessage`. The order book starts from an empty price book.

## Left out

- Sockets, connection retry loops, `recv`, `sendall`, `accept`, `bind` and `listen` are left out. They are I/O: a session is the sequence of chunks it receives, and a send's outcome is the broadcast's failure predicate.
- Threads, the locks and the stop event are left out. Every price-book method holds its lock for its whole body, so calls are atomic and are modelled in lock order. The client list is modelled the same way.
- The process entry points (`__main__` blocks, `main.py`) are left out. They only wire the components together.
- Float arithmetic is left out: the gateway's random initial prices and random-walk drift, and `random.randint`. The tick takes the drifted prices and the drawn sentiment as inputs; the sentiment is limited to the drawn range 0..100.
- Number formatting and parsing are left out: `:.4f`, `float()`, NaN and infinities. `fmt` and `parse` are parameters, and prices are reals.
- Strategy.OrderJson: the price is not rounded with `round(price, 2)`, because rounding a binary float is not modelled. The record otherwise has the four fields `_send_order` builds.
- JSON encoding and decoding are parameters. UTF-8 decoding is left out: the model reads decoded text. In the strategy and the order book, a frame that is not valid UTF-8 raises inside `run` and ends it. In the order manager it raises inside `_process_order`, which logs it and sends no reply (`src/order_manager.py:96-97`), as for invalid JSON.
- OrderManager.ConfirmationJson: the dictionary's key order is not modelled, because a Dafny map is unordered.
- The strategy's reading of confirmations after each order (`src/strategy.py:133-139`) is left out. It only prints.
- The strategy's positions are updated even when sending fails. This is modelled by not modelling sends at all.
- Log output (`print`) is left out.
- The order book's `names()`, `close()` and `unlink()` calls, like `update` and the constructor with arguments, name methods the price book does not have. They are covered under Findings only for the update path. Cleanup is left out as I/O.
- `src/ordermanager.py`, `src/gateway_client.py`, `src/trades.py`, `main.py` and the tests that call classes or methods that do not exist are not part of this model. They duplicate the framing loop, set up logging, or call APIs that no file defines.
- Feed.TickUpdatesOrderBook: it assumes that every formatted price has no comma, no `*` and no trailing white space, and that it parses back. `Feed.PriceMessagesWrite`, `Feed.TickWrites`, `Feed.ReadingsStored`, `Feed.TickArrives` and `Feed.TickDrivesStrategy` rest on the same assumption. `:.4f` output of a finite float does all of this, but the formatting itself is not modelled.
- Gateway.Broadcast: clients are values with equality. In the source they are distinct socket objects, so `list.remove` removes exactly the failed socket. The model proves the same outcome even when a value is listed twice.
