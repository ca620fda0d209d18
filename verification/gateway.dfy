/** The gateway of src/gateway.py: a list of subscribed clients, a broadcast
    that sends one message to each and evicts those whose send failed, and
    the tick that decides which messages go out. Clients are opaque values;
    whether a send to a client fails is a predicate supplied per broadcast. */
module Gateway {
  import opened Wrappers
  import opened Framing
  import opened Text
  import opened TickProtocol

  /** `SYMBOLS`, in broadcast order. */
  const Symbols: seq<string> := ["AAPL", "MSFT", "GOOG"]

  /** `NEWS_INTERVAL`, in seconds. */
  const NewsInterval: real := 3.0

  /** The largest sentiment `random.randint(0, 100)` can draw. */
  const MaxSentiment: nat := 100

  /** The clients whose send did not fail, in list order. */
  function Survivors<C>(clients: seq<C>, failed: C -> bool): (s: seq<C>)
    ensures |s| <= |clients|
    ensures forall i :: 0 <= i < |s| ==> !failed(s[i])
    decreases |clients|
  {
    if |clients| == 0 then []
    else (if failed(clients[0]) then [] else [clients[0]]) + Survivors(clients[1..], failed)
  }

  /** The clients whose send failed, in list order: the `dead` list. */
  function Evicted<C>(clients: seq<C>, failed: C -> bool): (e: seq<C>)
    ensures |e| <= |clients|
    ensures forall i :: 0 <= i < |e| ==> failed(e[i])
    decreases |clients|
  {
    if |clients| == 0 then []
    else (if failed(clients[0]) then [clients[0]] else []) + Evicted(clients[1..], failed)
  }

  /** Python's `list.remove(x)`: drop the first element equal to `x`, or
      `None` where Python raises `ValueError`. */
  function RemoveFirst<C(==)>(xs: seq<C>, x: C): (r: Option<seq<C>>)
    ensures r.Some? <==> x in xs
    ensures r.Some? ==> r.value == xs[..IndexOf(xs, x)] + xs[IndexOf(xs, x) + 1..]
    ensures r.Some? ==> multiset(r.value) == multiset(xs) - multiset{x}
    decreases |xs|
  {
    if |xs| == 0 then None
    else if xs[0] == x then
      assert xs == [xs[0]] + xs[1..];
      Some(xs[1..])
    else
      var rest := RemoveFirst(xs[1..], x);
      if rest.None? then None
      else
        assert xs == [xs[0]] + xs[1..];
        RemoveLater(xs, x, rest.value);
        Some([xs[0]] + rest.value)
  }

  /** When the first element is not `x`, removing `x` from the tail and
      putting the head back cuts `xs` at the same place. */
  lemma RemoveLater<C>(xs: seq<C>, x: C, tail: seq<C>)
    requires |xs| > 0 && xs[0] != x && x in xs[1..]
    requires tail == xs[1..][..IndexOf(xs[1..], x)] + xs[1..][IndexOf(xs[1..], x) + 1..]
    ensures x in xs && IndexOf(xs, x) == IndexOf(xs[1..], x) + 1
    ensures [xs[0]] + tail == xs[..IndexOf(xs, x)] + xs[IndexOf(xs, x) + 1..]
  {
    var j := IndexOf(xs[1..], x);
    assert IndexOf(xs, x) == j + 1;
    ConsCut(xs, j);
  }

  /** Cutting position `j` out of the tail of `xs` is cutting `j + 1` out
      of `xs` itself, head kept. */
  lemma ConsCut<C>(xs: seq<C>, j: nat)
    requires j + 1 < |xs|
    ensures [xs[0]] + (xs[1..][..j] + xs[1..][j + 1..]) == xs[..j + 1] + xs[j + 2..]
  {
    var t := xs[1..];
    assert [xs[0]] + t[..j] == xs[..j + 1] by {
      assert t[..j] == xs[1..j + 1];
    }
    assert t[j + 1..] == xs[j + 2..];
  }

  lemma {:induction false} EvictedSnoc<C>(xs: seq<C>, x: C, failed: C -> bool)
    ensures Evicted(xs + [x], failed) == Evicted(xs, failed) + (if failed(x) then [x] else [])
    decreases |xs|
  {
    if |xs| == 0 {
      assert xs + [x] == [x];
    } else {
      assert (xs + [x])[1..] == xs[1..] + [x];
      EvictedSnoc(xs[1..], x, failed);
    }
  }

  /** Removing the first dead client from the list keeps the survivors and
      leaves the rest of the dead, in order. */
  lemma {:induction false} RemoveFirstDead<C>(xs: seq<C>, failed: C -> bool)
    requires Evicted(xs, failed) != []
    ensures RemoveFirst(xs, Evicted(xs, failed)[0]).Some?
    ensures Survivors(RemoveFirst(xs, Evicted(xs, failed)[0]).value, failed) == Survivors(xs, failed)
    ensures Evicted(RemoveFirst(xs, Evicted(xs, failed)[0]).value, failed) == Evicted(xs, failed)[1..]
    decreases |xs|
  {
    var x := Evicted(xs, failed)[0];
    if failed(xs[0]) {
      assert x == xs[0];
    } else {
      assert Evicted(xs, failed) == Evicted(xs[1..], failed);
      assert x != xs[0];
      RemoveFirstDead(xs[1..], failed);
      var tail := RemoveFirst(xs[1..], x).value;
      assert RemoveFirst(xs, x).value == [xs[0]] + tail;
      assert ([xs[0]] + tail)[1..] == tail;
    }
  }

  lemma {:induction false} NoneEvictedAllSurvive<C>(xs: seq<C>, failed: C -> bool)
    requires Evicted(xs, failed) == []
    ensures Survivors(xs, failed) == xs
    decreases |xs|
  {
    if |xs| > 0 {
      NoneEvictedAllSurvive(xs[1..], failed);
      assert xs == [xs[0]] + xs[1..];
    }
  }

  /** `_broadcast`: send to every client, collecting those whose send
      failed, then remove each of them from the list with `list.remove`
      (an exception there is swallowed) and close it. The results are the
      new client list, the clients a send was attempted to, in order, and
      the clients closed. */
  method Broadcast<C(==)>(clients: seq<C>, failed: C -> bool)
    returns (remaining: seq<C>, attempted: seq<C>, closed: seq<C>)
    ensures attempted == clients
    ensures closed == Evicted(clients, failed)
    ensures remaining == Survivors(clients, failed)
  {
    var dead: seq<C> := [];
    attempted := [];
    var i := 0;
    while i < |clients|
      invariant 0 <= i <= |clients|
      invariant attempted == clients[..i]
      invariant dead == Evicted(clients[..i], failed)
    {
      attempted := attempted + [clients[i]];
      EvictedSnoc(clients[..i], clients[i], failed);
      TakeOneMore(clients, i);
      if failed(clients[i]) {
        dead := dead + [clients[i]];
      }
      i := i + 1;
    }
    assert clients[..i] == clients;
    remaining := clients;
    closed := [];
    var j := 0;
    while j < |dead|
      invariant 0 <= j <= |dead|
      invariant Survivors(remaining, failed) == Survivors(clients, failed)
      invariant Evicted(remaining, failed) == dead[j..]
      invariant closed == dead[..j]
    {
      CloseNext(remaining, failed, dead, j);
      TakeOneMore(dead, j);
      remaining := RemoveFirst(remaining, dead[j]).GetOr(remaining);
      closed := closed + [dead[j]];
      j := j + 1;
    }
    NoneEvictedAllSurvive(remaining, failed);
    assert closed == dead;
  }

  lemma TakeOneMore<C>(s: seq<C>, i: nat)
    requires i < |s|
    ensures s[..i + 1] == s[..i] + [s[i]]
  {
  }

  /** One step of the removal loop: the next dead client is still listed,
      and removing it leaves the survivors and the later dead. */
  lemma CloseNext<C>(remaining: seq<C>, failed: C -> bool, dead: seq<C>, j: nat)
    requires j < |dead|
    requires Evicted(remaining, failed) == dead[j..]
    ensures RemoveFirst(remaining, dead[j]).Some?
    ensures Survivors(RemoveFirst(remaining, dead[j]).value, failed) == Survivors(remaining, failed)
    ensures Evicted(RemoveFirst(remaining, dead[j]).value, failed) == dead[j + 1..]
  {
    RemoveFirstDead(remaining, failed);
    assert dead[j..][1..] == dead[j + 1..];
  }

  /** Survivors are exactly the listed clients whose send did not fail. */
  lemma {:induction false} SurvivorsMembership<C>(clients: seq<C>, failed: C -> bool, c: C)
    ensures c in Survivors(clients, failed) <==> c in clients && !failed(c)
    decreases |clients|
  {
    if |clients| > 0 {
      SurvivorsMembership(clients[1..], failed, c);
      assert clients == [clients[0]] + clients[1..];
    }
  }

  /** Nothing is lost or invented: survivors and evicted clients together
      are the old list, counting repetitions. */
  lemma {:induction false} BroadcastPartitions<C>(clients: seq<C>, failed: C -> bool)
    ensures multiset(Survivors(clients, failed)) + multiset(Evicted(clients, failed)) == multiset(clients)
    decreases |clients|
  {
    if |clients| > 0 {
      BroadcastPartitions(clients[1..], failed);
      PartitionStep(clients, failed);
    }
  }

  /** The first client goes to exactly one side of the partition. */
  lemma PartitionStep<C>(clients: seq<C>, failed: C -> bool)
    requires |clients| > 0
    ensures multiset(Survivors(clients, failed)) + multiset(Evicted(clients, failed))
      == multiset{clients[0]} + multiset(Survivors(clients[1..], failed)) + multiset(Evicted(clients[1..], failed))
    ensures multiset(clients) == multiset{clients[0]} + multiset(clients[1..])
  {
    var c := clients[0];
    var rest := clients[1..];
    assert clients == [c] + rest;
    if failed(c) {
      assert Survivors(clients, failed) == Survivors(rest, failed);
      assert Evicted(clients, failed) == [c] + Evicted(rest, failed);
    } else {
      assert Survivors(clients, failed) == [c] + Survivors(rest, failed);
      assert Evicted(clients, failed) == Evicted(rest, failed);
    }
  }

  /** `a` is `b` with some elements left out, the rest in their order. */
  ghost predicate Subsequence<C>(a: seq<C>, b: seq<C>)
    decreases |b|
  {
    if |a| == 0 then true
    else if |b| == 0 then false
    else (a[0] == b[0] && Subsequence(a[1..], b[1..])) || Subsequence(a, b[1..])
  }

  /** Survivors keep their original relative order. */
  lemma {:induction false} SurvivorsKeepOrder<C>(clients: seq<C>, failed: C -> bool)
    ensures Subsequence(Survivors(clients, failed), clients)
    decreases |clients|
  {
    if |clients| > 0 {
      SurvivorsKeepOrder(clients[1..], failed);
      var s := Survivors(clients, failed);
      if !failed(clients[0]) {
        assert s[0] == clients[0] && s[1..] == Survivors(clients[1..], failed);
      } else {
        assert s == Survivors(clients[1..], failed);
      }
    }
  }

  /** Survivors of a list with a client appended. */
  lemma {:induction false} SurvivorsAppend<C>(a: seq<C>, b: seq<C>, failed: C -> bool)
    ensures Survivors(a + b, failed) == Survivors(a, failed) + Survivors(b, failed)
    decreases |a|
  {
    if |a| == 0 {
      assert a + b == b;
    } else {
      assert (a + b)[1..] == a[1..] + b;
      SurvivorsAppend(a[1..], b, failed);
    }
  }

  /** `_accept_loop`: a new connection goes to the end of the list. */
  function Accept<C>(clients: seq<C>, c: C): (r: seq<C>)
    ensures |r| == |clients| + 1
    ensures r[..|clients|] == clients && r[|clients|] == c
  {
    clients + [c]
  }

  /** A client accepted after others is broadcast to after them, and joins
      the survivors at the end unless its own send fails. */
  lemma AcceptedLast<C>(clients: seq<C>, c: C, failed: C -> bool)
    ensures Survivors(Accept(clients, c), failed)
      == Survivors(clients, failed) + (if failed(c) then [] else [c])
  {
    SurvivorsAppend(clients, [c], failed);
    assert [c][1..] == [];
  }

  /** What `stop` does to the client list. */
  datatype Stopped<C> = Stopped(closed: seq<C>, clients: seq<C>)

  /** `stop`: close every client (errors ignored), then clear the list. */
  function Stop<C>(clients: seq<C>): (r: Stopped<C>)
    ensures r.clients == []
    ensures multiset(r.closed) == multiset(clients)
  {
    Stopped(clients, [])
  }

  /** After `stop`, a broadcast reaches nobody. */
  lemma StoppedReachesNobody<C>(clients: seq<C>, failed: C -> bool)
    ensures Survivors(Stop(clients).clients, failed) == []
    ensures Evicted(Stop(clients).clients, failed) == []
  {
  }

  /** The client list after several broadcasts, `rounds[k]` telling which
      sends of the k-th broadcast fail. */
  function AfterRounds<C>(clients: seq<C>, rounds: seq<C -> bool>): (r: seq<C>)
    ensures |r| <= |clients|
    decreases |rounds|
  {
    if |rounds| == 0 then clients else AfterRounds(Survivors(clients, rounds[0]), rounds[1..])
  }

  /** How many of the broadcasts `c` received. */
  function Received<C(==)>(clients: seq<C>, rounds: seq<C -> bool>, c: C): nat
    decreases |rounds|
  {
    if |rounds| == 0 then 0
    else
      (if c in clients && !rounds[0](c) then 1 else 0)
        + Received(Survivors(clients, rounds[0]), rounds[1..], c)
  }

  /** The index of the first broadcast whose send to `c` fails, or the
      number of broadcasts when none does. */
  function FirstFailure<C>(c: C, rounds: seq<C -> bool>): (k: nat)
    ensures k <= |rounds|
    ensures forall i :: 0 <= i < k ==> !rounds[i](c)
    ensures k < |rounds| ==> rounds[k](c)
    decreases |rounds|
  {
    if |rounds| == 0 then 0
    else if rounds[0](c) then 0
    else 1 + FirstFailure(c, rounds[1..])
  }

  /** A listed client receives every broadcast up to its first failed send
      and none after it; an unlisted one receives nothing. */
  lemma {:induction false} ReceivedUntilFirstFailure<C>(clients: seq<C>, rounds: seq<C -> bool>, c: C)
    ensures Received(clients, rounds, c) == (if c in clients then FirstFailure(c, rounds) else 0)
    decreases |rounds|
  {
    if |rounds| > 0 {
      SurvivorsMembership(clients, rounds[0], c);
      ReceivedUntilFirstFailure(Survivors(clients, rounds[0]), rounds[1..], c);
    }
  }

  /** A client is still listed after the broadcasts iff it was listed and
      none of its sends failed. */
  lemma {:induction false} StaysIffNeverFailed<C>(clients: seq<C>, rounds: seq<C -> bool>, c: C)
    ensures c in AfterRounds(clients, rounds) <==> c in clients && FirstFailure(c, rounds) == |rounds|
    decreases |rounds|
  {
    if |rounds| > 0 {
      SurvivorsMembership(clients, rounds[0], c);
      StaysIffNeverFailed(Survivors(clients, rounds[0]), rounds[1..], c);
    }
  }

  /** A news message is due when `NEWS_INTERVAL` seconds have passed since
      the last one. */
  predicate NewsDue(now: real, lastNews: real)
  {
    now - lastNews >= NewsInterval
  }

  /** `last_news` after a tick at time `now`. */
  function NextLastNews(now: real, lastNews: real): (next: real)
    ensures next >= lastNews
    ensures next != lastNews ==> next == now && now - lastNews >= NewsInterval
    ensures NewsDue(now, lastNews) ==> next == now
    ensures !NewsDue(now, lastNews) ==> next == lastNews
  {
    if NewsDue(now, lastNews) then now else lastNews
  }

  /** The price messages of one tick, one per symbol in `symbols` order.
      `fmt` stands for the `:.4f` formatting. */
  function PriceMessages(prices: map<string, real>, fmt: real -> string, symbols: seq<string>): (ms: seq<string>)
    requires forall i :: 0 <= i < |symbols| ==> symbols[i] in prices
    ensures |ms| == |symbols|
    ensures forall i :: 0 <= i < |symbols| ==> ms[i] == PricePayload(symbols[i], fmt(prices[symbols[i]]))
    decreases |symbols|
  {
    if |symbols| == 0 then []
    else [PricePayload(symbols[0], fmt(prices[symbols[0]]))] + PriceMessages(prices, fmt, symbols[1..])
  }

  /** What one pass of `_broadcast_loop` sends and the `last_news` it
      leaves behind. */
  datatype Tick = Tick(messages: seq<string>, lastNews: real)

  /** One pass of `_broadcast_loop` at time `now`: the prices (already
      drifted) of every symbol, then a news message with the drawn
      `sentiment` if one is due. */
  function BroadcastTick(prices: map<string, real>, fmt: real -> string, now: real, lastNews: real,
                         sentiment: nat): (t: Tick)
    requires forall i :: 0 <= i < |Symbols| ==> Symbols[i] in prices
    requires sentiment <= MaxSentiment
    ensures |t.messages| == |Symbols| + (if NewsDue(now, lastNews) then 1 else 0)
    ensures t.messages[..|Symbols|] == PriceMessages(prices, fmt, Symbols)
    ensures NewsDue(now, lastNews) ==> t.messages[|Symbols|] == NewsPayload(sentiment) && t.lastNews == now
    ensures !NewsDue(now, lastNews) ==> t.lastNews == lastNews
  {
    var priceMessages := PriceMessages(prices, fmt, Symbols);
    var news := if NewsDue(now, lastNews) then [NewsPayload(sentiment)] else [];
    Tick(priceMessages + news, NextLastNews(now, lastNews))
  }

  /** The messages of a tick: the price messages, then the news if due. */
  lemma TickMessages(prices: map<string, real>, fmt: real -> string, now: real, lastNews: real,
                     sentiment: nat)
    requires forall i :: 0 <= i < |Symbols| ==> Symbols[i] in prices
    requires sentiment <= MaxSentiment
    ensures BroadcastTick(prices, fmt, now, lastNews, sentiment).messages
      == PriceMessages(prices, fmt, Symbols) + (if NewsDue(now, lastNews) then [NewsPayload(sentiment)] else [])
  {
  }

  /** The times among `times` at which a news message goes out, starting
      with `last_news` set to `lastNews`. */
  function NewsSchedule(lastNews: real, times: seq<real>): (sent: seq<real>)
    ensures |sent| <= |times|
    decreases |times|
  {
    if |times| == 0 then []
    else
      (if NewsDue(times[0], lastNews) then [times[0]] else [])
        + NewsSchedule(NextLastNews(times[0], lastNews), times[1..])
  }

  /** Consecutive news messages, and the first one after the start, are at
      least `NEWS_INTERVAL` apart. */
  ghost predicate Spaced(lastNews: real, sent: seq<real>)
    decreases |sent|
  {
    |sent| == 0 || (sent[0] - lastNews >= NewsInterval && Spaced(sent[0], sent[1..]))
  }

  lemma {:induction false} NewsIsSpaced(lastNews: real, times: seq<real>)
    ensures Spaced(lastNews, NewsSchedule(lastNews, times))
    decreases |times|
  {
    if |times| > 0 {
      NewsIsSpaced(NextLastNews(times[0], lastNews), times[1..]);
      if NewsDue(times[0], lastNews) {
        var sent := NewsSchedule(lastNews, times);
        assert sent[0] == times[0] && sent[1..] == NewsSchedule(times[0], times[1..]);
      } else {
        assert NewsSchedule(lastNews, times) == NewsSchedule(lastNews, times[1..]);
      }
    }
  }

  /** When ticks come at least `NEWS_INTERVAL` apart, every tick after the
      start carries news. */
  lemma {:induction false} SlowTicksAllCarryNews(lastNews: real, times: seq<real>)
    requires |times| > 0 ==> times[0] - lastNews >= NewsInterval
    requires forall i :: 0 < i < |times| ==> times[i] - times[i - 1] >= NewsInterval
    ensures NewsSchedule(lastNews, times) == times
    decreases |times|
  {
    if |times| > 0 {
      SlowTicksAllCarryNews(times[0], times[1..]);
      assert times == [times[0]] + times[1..];
    }
  }

  /** A news message names a sentiment between 0 and 100 in plain decimal,
      and the price messages carry no delimiter when neither the symbols
      nor the formatted prices do. */
  lemma TickMessagesAreFrames(prices: map<string, real>, fmt: real -> string, now: real,
                              lastNews: real, sentiment: nat)
    requires forall i :: 0 <= i < |Symbols| ==> Symbols[i] in prices
    requires sentiment <= MaxSentiment
    requires forall i :: 0 <= i < |Symbols| ==> Delim !in fmt(prices[Symbols[i]])
    ensures DelimFree(BroadcastTick(prices, fmt, now, lastNews, sentiment).messages, Delim)
  {
    var t := BroadcastTick(prices, fmt, now, lastNews, sentiment);
    forall k | 0 <= k < |t.messages|
      ensures Delim !in t.messages[k]
    {
      if k < |Symbols| {
        assert t.messages[k] == t.messages[..|Symbols|][k];
        PriceMessageDelimFree(Symbols[k], fmt(prices[Symbols[k]]));
      } else {
        NewsMessageDelimFree(sentiment);
      }
    }
  }

  lemma PriceMessageDelimFree(symbol: string, priceText: string)
    requires symbol in Symbols && Delim !in priceText
    ensures Delim !in PricePayload(symbol, priceText)
  {
    assert Delim !in symbol;
  }

  lemma NewsMessageDelimFree(sentiment: nat)
    ensures Delim !in NewsPayload(sentiment)
  {
    var digits := Decimal(sentiment);
    assert forall i :: 0 <= i < |digits| ==> digits[i] != Delim;
  }

  /** The news sentiment a tick sends reads back as at most 100. */
  lemma NewsSentimentInRange(prices: map<string, real>, fmt: real -> string, now: real,
                             lastNews: real, sentiment: nat, parse: string -> Option<real>)
    requires forall i :: 0 <= i < |Symbols| ==> Symbols[i] in prices
    requires sentiment <= MaxSentiment
    requires NewsDue(now, lastNews)
    ensures var m := Classify(BroadcastTick(prices, fmt, now, lastNews, sentiment).messages[|Symbols|], parse);
            m.News? && (forall i :: 0 <= i < |m.sentiment| ==> IsDigit(m.sentiment[i]))
            && DigitsValue(m.sentiment) <= MaxSentiment
  {
    ClassifyNewsPayload(sentiment, parse);
  }
}
