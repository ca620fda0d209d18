/** The order manager of src/order_manager.py: per client connection it cuts
    the incoming stream into frames, reads each frame as JSON and answers an
    order with a confirmation frame. */
module OrderManager {
  import opened Wrappers
  import opened Framing
  import opened Text
  import opened Json
  import Strategy

  /** The keys an order must carry, in the order `_process_order`'s key test tries them. */
  const RequiredKeys: seq<string> := ["symbol", "side", "qty", "price"]

  /** The reason every rejection gives. */
  const MissingFields: string := "Missing fields"

  /** The confirmation dictionary `_process_order` builds. */
  datatype Confirmation =
    | Accepted(symbol: Value, side: Value, qty: Value, price: Value)
    | Rejected(reason: string)

  /** `key` occurs as a contiguous part of `s` (Python's `key in s` on strings). */
  predicate IsInfix(key: string, s: string)
    decreases |s|
  {
    key <= s || (|s| > 0 && IsInfix(key, s[1..]))
  }

  /** `key` is the slice of `s` that starts at `i`. */
  predicate OccursAt(key: string, s: string, i: int)
  {
    0 <= i <= |s| - |key| && s[i..i + |key|] == key
  }

  /** `key in s` holds exactly when `key` occurs in `s` at some position. */
  lemma {:induction false} InfixAt(key: string, s: string)
    ensures IsInfix(key, s) <==> exists i :: OccursAt(key, s, i)
    decreases |s|
  {
    if |s| > 0 {
      InfixAt(key, s[1..]);
    }
    if IsInfix(key, s) {
      if key <= s {
        assert OccursAt(key, s, 0);
      } else {
        var i :| OccursAt(key, s[1..], i);
        OccursInTail(key, s, i);
      }
    }
    if exists i :: OccursAt(key, s, i) {
      var i :| OccursAt(key, s, i);
      if i == 0 {
        assert key <= s;
      } else {
        OccursInTail(key, s, i - 1);
      }
    }
  }

  /** An occurrence in the tail of `s` is one position further on in `s`. */
  lemma OccursInTail(key: string, s: string, i: int)
    requires |s| > 0 && 0 <= i
    ensures OccursAt(key, s[1..], i) <==> OccursAt(key, s, i + 1)
  {
    if 0 <= i <= |s[1..]| - |key| {
      assert s[1..][i..i + |key|] == s[i + 1..i + 1 + |key|];
    }
  }

  /** Python's `key in container` for a decoded JSON value: dictionaries test
      their keys, lists their elements, strings their substrings; for any
      other value the test raises `TypeError` (`None`). */
  function Contains(container: Value, key: string): (r: Option<bool>)
    ensures r.None? <==> !(container.JObject? || container.JArray? || container.JStr?)
    ensures container.JObject? ==> r == Some(key in container.members)
    ensures container.JArray? ==> r == Some(JStr(key) in container.items)
    ensures container.JStr? ==> (r == Some(true) <==> exists i :: OccursAt(key, container.s, i))
  {
    match container
    case JObject(members) => Some(key in members)
    case JArray(items) => Some(JStr(key) in items)
    case JStr(s) => InfixAt(key, s); Some(IsInfix(key, s))
    case _ => None
  }

  /** The test `all(k in order for k in (...))`; `None` when it raises. */
  function HasAllKeys(order: Value): (r: Option<bool>)
    ensures r.None? <==> !(order.JObject? || order.JArray? || order.JStr?)
    ensures r == Some(true) <==> r.Some? && forall k :: k in RequiredKeys ==> Contains(order, k) == Some(true)
  {
    assert forall k :: k in RequiredKeys <==> k == "symbol" || k == "side" || k == "qty" || k == "price";
    match order
    case JObject(_) | JArray(_) | JStr(_) =>
      Some(&& Contains(order, "symbol") == Some(true)
           && Contains(order, "side") == Some(true)
           && Contains(order, "qty") == Some(true)
           && Contains(order, "price") == Some(true))
    case _ => None
  }

  /** `_process_order` on a frame that decoded to `decoded` (`None` when
      `json.loads` raised). The result is the confirmation sent back, or
      `None` when the handler logs an exception and sends nothing. */
  function ProcessOrder(decoded: Option<Value>): (reply: Option<Confirmation>)
    ensures decoded.None? ==> reply.None?
    ensures decoded.Some? && decoded.value.JObject? ==> reply.Some?
    ensures decoded.Some? && !decoded.value.JObject? ==>
      (reply.Some? <==> HasAllKeys(decoded.value) == Some(false))
    ensures reply.Some? && reply.value.Accepted? <==>
      && decoded.Some? && decoded.value.JObject?
      && (forall k :: k in RequiredKeys ==> k in decoded.value.members)
    ensures reply.Some? && reply.value.Accepted? ==>
      var m := decoded.value.members;
      reply.value == Accepted(m["symbol"], m["side"], m["qty"], m["price"])
    ensures reply.Some? && reply.value.Rejected? ==> reply.value.reason == MissingFields
  {
    match decoded
    case None => None
    case Some(order) =>
      match HasAllKeys(order)
      case None => None
      case Some(false) => Some(Rejected(MissingFields))
      case Some(true) =>
        match order
        case JObject(m) => Some(Accepted(m["symbol"], m["side"], m["qty"], m["price"]))
        case _ => None   // indexing a list or a string by a key raises TypeError
  }

  /** Acceptance looks only at which keys are present: two orders with the
      same required keys present get the same verdict, whatever the values. */
  lemma VerdictDependsOnlyOnKeys(m1: map<string, Value>, m2: map<string, Value>)
    requires forall k :: k in RequiredKeys ==> (k in m1 <==> k in m2)
    ensures ProcessOrder(Some(JObject(m1))).value.Accepted?
        == ProcessOrder(Some(JObject(m2))).value.Accepted?
  {
  }

  /** Keys beyond the required four change nothing in the reply. */
  lemma ExtraKeysIgnored(m: map<string, Value>)
    ensures ProcessOrder(Some(JObject(m)))
      == ProcessOrder(Some(JObject(map k | k in m && k in RequiredKeys :: m[k])))
  {
  }

  /** What a client reads from a confirmation dictionary: `status` decides
      the verdict, an acceptance echoes the four order fields, a rejection
      carries its reason. `None` for any other dictionary. */
  function ReadConfirmation(v: Value): Option<Confirmation>
  {
    match v
    case JObject(m) =>
      if "status" in m && m["status"] == JStr("ACCEPTED")
         && "symbol" in m && "side" in m && "qty" in m && "price" in m then
        Some(Accepted(m["symbol"], m["side"], m["qty"], m["price"]))
      else if "status" in m && m["status"] == JStr("REJECTED") && "reason" in m && m["reason"].JStr? then
        Some(Rejected(m["reason"].s))
      else None
    case _ => None
  }

  /** The dictionary `json.dumps` serialises for a confirmation: its
      `status` names the verdict, and the client reads the confirmation
      back from it unchanged. */
  function ConfirmationJson(c: Confirmation): (v: Value)
    ensures v.JObject?
    ensures c.Accepted? ==> v.members.Keys == {"status", "symbol", "side", "qty", "price"}
    ensures c.Rejected? ==> v.members.Keys == {"status", "reason"}
    ensures v.members["status"] == JStr(if c.Accepted? then "ACCEPTED" else "REJECTED")
    ensures c.Accepted? ==>
      && v.members["symbol"] == c.symbol && v.members["side"] == c.side
      && v.members["qty"] == c.qty && v.members["price"] == c.price
    ensures c.Rejected? ==> v.members["reason"] == JStr(c.reason)
    ensures ReadConfirmation(v) == Some(c)
  {
    match c
    case Accepted(symbol, side, qty, price) =>
      JObject(map["status" := JStr("ACCEPTED"), "symbol" := symbol, "side" := side,
                  "qty" := qty, "price" := price])
    case Rejected(reason) =>
      JObject(map["status" := JStr("REJECTED"), "reason" := JStr(reason)])
  }

  /** The replies to the frames of one connection, in receipt order. `loads`
      stands for `json.loads` of the decoded and stripped text. */
  function Session(frames: seq<string>, loads: string -> Option<Value>): (replies: seq<Confirmation>)
    ensures |replies| <= |frames|
    decreases |frames|
  {
    if |frames| == 0 then []
    else
      var reply := ProcessOrder(loads(Strip(frames[0])));
      (if reply.Some? then [reply.value] else []) + Session(frames[1..], loads)
  }

  /** A connection none of whose frames is JSON gets no reply at all. */
  lemma {:induction false} NoJsonNoReplies(frames: seq<string>, loads: string -> Option<Value>)
    requires forall i :: 0 <= i < |frames| ==> loads(Strip(frames[i])).None?
    ensures Session(frames, loads) == []
    decreases |frames|
  {
    if |frames| > 0 {
      NoJsonNoReplies(frames[1..], loads);
    }
  }

  /** `_handle_client`: the connection's byte stream, read in chunks from an
      empty buffer; every complete frame is processed, a trailing partial
      frame is kept. */
  function HandleClient(chunks: seq<string>, loads: string -> Option<Value>): (replies: seq<Confirmation>)
    ensures replies == Session(SplitFrames(Flatten(chunks), Delim).frames, loads)
  {
    FeedAllSplitsStream([], chunks, Delim);
    assert [] + Flatten(chunks) == Flatten(chunks);
    Session(FeedAll([], chunks, Delim).frames, loads)
  }

  /** A bad frame does not end the session: the replies to two runs of frames
      are the replies to each, in order. */
  lemma {:induction false} SessionAppend(a: seq<string>, b: seq<string>, loads: string -> Option<Value>)
    ensures Session(a + b, loads) == Session(a, loads) + Session(b, loads)
    decreases |a|
  {
    if |a| == 0 {
      assert a + b == b;
    } else {
      var reply := ProcessOrder(loads(Strip(a[0])));
      var head := if reply.Some? then [reply.value] else [];
      ConsAppend(a, b);
      SessionAppend(a[1..], b, loads);
      Reassociate(Session(a + b, loads), Session(a, loads), Session(b, loads), head,
                  Session(a[1..] + b, loads), Session(a[1..], loads));
    }
  }

  /** A frame that is not JSON gets no reply. */
  lemma InvalidJsonNoReply(frame: string, loads: string -> Option<Value>)
    requires loads(Strip(frame)).None?
    ensures Session([frame], loads) == []
  {
  }

  /** When every frame decodes to a JSON object, there is exactly one reply
      per frame, and the i-th reply answers the i-th frame. */
  lemma {:induction false} OneReplyPerOrder(frames: seq<string>, loads: string -> Option<Value>)
    requires forall i :: 0 <= i < |frames| ==>
      loads(Strip(frames[i])).Some? && loads(Strip(frames[i])).value.JObject?
    ensures |Session(frames, loads)| == |frames|
    ensures forall i :: 0 <= i < |frames| ==>
      Some(Session(frames, loads)[i]) == ProcessOrder(loads(Strip(frames[i])))
    decreases |frames|
  {
    if |frames| > 0 {
      OneReplyPerOrder(frames[1..], loads);
      var s := Session(frames, loads);
      assert s[1..] == Session(frames[1..], loads);
      forall i | 0 <= i < |frames|
        ensures Some(s[i]) == ProcessOrder(loads(Strip(frames[i])))
      {
        if i > 0 {
          assert s[i] == s[1..][i - 1];
          assert frames[i] == frames[1..][i - 1];
        }
      }
    }
  }

  /** Chunk boundaries on the connection do not change the replies. */
  lemma HandleClientIgnoresChunking(c1: seq<string>, c2: seq<string>, loads: string -> Option<Value>)
    requires Flatten(c1) == Flatten(c2)
    ensures HandleClient(c1, loads) == HandleClient(c2, loads)
  {
    ChunkingIrrelevant(c1, c2, Delim);
  }

  /** What goes back on the connection for one reply: the serialised
      confirmation followed by the delimiter. */
  function Reply(c: Confirmation, dumps: Value -> string): string
  {
    Encode(dumps(ConfirmationJson(c)), Delim)
  }

  /** The serialised replies, one per confirmation. */
  function Serialised(cs: seq<Confirmation>, dumps: Value -> string): (texts: seq<string>)
    ensures |texts| == |cs|
    ensures forall i :: 0 <= i < |cs| ==> texts[i] == dumps(ConfirmationJson(cs[i]))
    decreases |cs|
  {
    if |cs| == 0 then [] else [dumps(ConfirmationJson(cs[0]))] + Serialised(cs[1..], dumps)
  }

  /** Everything written back on one connection. */
  function ReplyStream(cs: seq<Confirmation>, dumps: Value -> string): (out: string)
    decreases |cs|
  {
    if |cs| == 0 then [] else Reply(cs[0], dumps) + ReplyStream(cs[1..], dumps)
  }

  lemma {:induction false} ReplyStreamIsJoin(cs: seq<Confirmation>, dumps: Value -> string)
    ensures ReplyStream(cs, dumps) == Join(Serialised(cs, dumps), Delim)
    decreases |cs|
  {
    if |cs| > 0 {
      ReplyStreamIsJoin(cs[1..], dumps);
      assert Serialised(cs, dumps)[1..] == Serialised(cs[1..], dumps);
    }
  }

  /** A client splitting the reply stream on the delimiter recovers each
      serialised confirmation, in order, provided no serialisation contains
      the delimiter itself. */
  lemma ClientRecoversReplies(cs: seq<Confirmation>, dumps: Value -> string)
    requires forall i :: 0 <= i < |cs| ==> Delim !in dumps(ConfirmationJson(cs[i]))
    ensures SplitFrames(ReplyStream(cs, dumps), Delim) == Split(Serialised(cs, dumps), [])
  {
    ReplyStreamIsJoin(cs, dumps);
    DecodeEncoded(Serialised(cs, dumps), Delim);
  }

  /** A serialised reply that holds the delimiter reaches the client as
      two frames or more. */
  lemma ReplyWithDelimiterSplits(c: Confirmation, dumps: Value -> string)
    requires Delim in dumps(ConfirmationJson(c))
    ensures |SplitFrames(ReplyStream([c], dumps), Delim).frames| >= 2
  {
    var text := dumps(ConfirmationJson(c));
    assert ReplyStream([c], dumps) == text + [Delim] by {
      assert [c][1..] == [];
    }
    FramesMatchDelimiters(text + [Delim], Delim);
    CountAppend(text, [Delim], Delim);
    CountAbsent(text, Delim);
    assert Count([Delim], Delim) == 1;
  }

  /** The delimiter can come back inside a reply. An order whose symbol
      decodes to a text holding `*`, written with the JSON escape `\u002a`,
      has no `*` in its frame, so it arrives whole; it is accepted and its
      symbol echoed. When the serialised confirmation carries that `*` as
      is, as `json.dumps` does, a client splitting the reply stream on `*`
      gets two frames or more for the one reply. */
  lemma EchoedDelimiterSplitsReply(frame: string, order: map<string, Value>, symbol: string,
                                   loads: string -> Option<Value>, dumps: Value -> string)
    requires Delim !in frame
    requires loads(Strip(frame)) == Some(JObject(order))
    requires forall k :: k in RequiredKeys ==> k in order
    requires order["symbol"] == JStr(symbol) && Delim in symbol
    requires Delim in dumps(ConfirmationJson(Accepted(order["symbol"], order["side"], order["qty"], order["price"])))
    ensures SplitFrames(Encode(frame, Delim), Delim).frames == [frame]
    ensures Session([frame], loads) == [Accepted(order["symbol"], order["side"], order["qty"], order["price"])]
    ensures |SplitFrames(ReplyStream(Session([frame], loads), dumps), Delim).frames| >= 2
  {
    DecodeEncodedFrame(frame, Delim);
    CompleteOrderAccepted(frame, order, loads);
    ReplyWithDelimiterSplits(Accepted(order["symbol"], order["side"], order["qty"], order["price"]), dumps);
  }

  /** A frame holding an order with all four keys gets exactly one reply,
      the acceptance echoing them. */
  lemma CompleteOrderAccepted(frame: string, order: map<string, Value>, loads: string -> Option<Value>)
    requires loads(Strip(frame)) == Some(JObject(order))
    requires forall k :: k in RequiredKeys ==> k in order
    ensures Session([frame], loads) == [Accepted(order["symbol"], order["side"], order["qty"], order["price"])]
  {
    assert [frame][1..] == [];
  }

  /** Every order the strategy sends is accepted, and the confirmation
      echoes its four fields. */
  lemma StrategyOrdersAccepted(o: Strategy.Order)
    ensures ProcessOrder(Some(Strategy.OrderJson(o))) == Some(Accepted(
      JStr(o.symbol), JStr(if o.side == Strategy.Buy then "BUY" else "SELL"),
      JInt(o.qty), JFloat(o.price)))
  {
  }

  /** An order without `qty` is rejected, and the next complete order on the
      same connection is still accepted. */
  lemma RejectionKeepsConnection(missingQty: string, complete: string, loads: string -> Option<Value>)
    requires loads(Strip(missingQty)) == Some(JObject(map[
      "symbol" := JStr("AAPL"), "side" := JStr("BUY"), "price" := JFloat(150.0)]))
    requires loads(Strip(complete)) == Some(JObject(map[
      "symbol" := JStr("AAPL"), "side" := JStr("BUY"), "qty" := JInt(10), "price" := JFloat(150.0)]))
    ensures Session([missingQty, complete], loads) == [
      Rejected(MissingFields),
      Accepted(JStr("AAPL"), JStr("BUY"), JInt(10), JFloat(150.0))]
  {
    var accepted := Accepted(JStr("AAPL"), JStr("BUY"), JInt(10), JFloat(150.0));
    assert Session([complete], loads) == [accepted] by {
      CompleteOrderAccepted(complete, loads(Strip(complete)).value.members, loads);
    }
    assert Session([missingQty], loads) == [Rejected(MissingFields)] by {
      IncompleteOrderRejected(missingQty, loads(Strip(missingQty)).value.members, "qty", loads);
    }
    SessionAppend([missingQty], [complete], loads);
    assert [missingQty] + [complete] == [missingQty, complete];
  }

  /** A frame holding an order that lacks a required key gets exactly one
      reply, the rejection. */
  lemma IncompleteOrderRejected(frame: string, order: map<string, Value>, missing: string,
                                loads: string -> Option<Value>)
    requires loads(Strip(frame)) == Some(JObject(order))
    requires missing in RequiredKeys && missing !in order
    ensures Session([frame], loads) == [Rejected(MissingFields)]
  {
    assert [frame][1..] == [];
  }

  /** A JSON list naming all four keys passes the key test but cannot be
      indexed by key: the handler raises and no reply is sent, while a list
      missing a key is rejected. */
  lemma ListOrders()
    ensures ProcessOrder(Some(JArray([JStr("symbol"), JStr("side"), JStr("qty"), JStr("price")]))) == None
    ensures ProcessOrder(Some(JArray([]))) == Some(Rejected(MissingFields))
  {
    var items := [JStr("symbol"), JStr("side"), JStr("qty"), JStr("price")];
    assert items[0] == JStr("symbol") && items[1] == JStr("side");
    assert items[2] == JStr("qty") && items[3] == JStr("price");
  }
}
