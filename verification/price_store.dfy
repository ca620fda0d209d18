/** `SharedPriceBook` of src/shared_memory_utils.py: the latest price per
    symbol. Every method holds one lock for its whole body, so each call is
    atomic and the book is modelled as a value that calls pass along in the
    order the lock admits them. */
module PriceStore {
  import opened Wrappers

  /** The book's dictionary from symbol to its latest price. */
  datatype PriceBook = PriceBook(prices: map<string, real>)

  /** A freshly constructed book holds no prices. */
  const Empty: PriceBook := PriceBook(map[])

  /** One call of `update_price`. */
  datatype Write = Write(symbol: string, price: real)

  /** `get_price`: the latest price of `symbol`, `None` if never written. */
  function GetPrice(book: PriceBook, symbol: string): (r: Option<real>)
    ensures r.None? <==> symbol !in book.prices
    ensures r.Some? ==> r.value == book.prices[symbol]
  {
    if symbol in book.prices then Some(book.prices[symbol]) else None
  }

  /** `update_price`: install `price` as the latest price of `symbol`. Any
      symbol may be written; its entry is created on the first write. */
  function UpdatePrice(book: PriceBook, symbol: string, price: real): (b: PriceBook)
    ensures GetPrice(b, symbol) == Some(price)
    ensures forall s :: s != symbol ==> GetPrice(b, s) == GetPrice(book, s)
    ensures b.prices.Keys == book.prices.Keys + {symbol}
  {
    PriceBook(book.prices[symbol := price])
  }

  /** `get_all_prices`: a copy of the whole dictionary. */
  function GetAllPrices(book: PriceBook): (snapshot: map<string, real>)
    ensures forall s :: GetPrice(book, s) == (if s in snapshot then Some(snapshot[s]) else None)
  {
    book.prices
  }

  /** Several calls of `update_price`, in the order they took the lock. */
  function ApplyWrites(book: PriceBook, writes: seq<Write>): PriceBook
    decreases |writes|
  {
    if |writes| == 0 then book
    else ApplyWrites(UpdatePrice(book, writes[0].symbol, writes[0].price), writes[1..])
  }

  /** The price of the last write to `symbol` in `writes`, if any. */
  function LastWrite(writes: seq<Write>, symbol: string): Option<real>
    decreases |writes|
  {
    if |writes| == 0 then None
    else
      var later := LastWrite(writes[1..], symbol);
      if later.Some? then later
      else if writes[0].symbol == symbol then Some(writes[0].price)
      else None
  }

  /** Last write wins: after any sequence of updates, each symbol's price is
      that of its last write, or what it was before if it was not written. */
  lemma {:induction false} LastWriteWins(book: PriceBook, writes: seq<Write>, symbol: string)
    ensures GetPrice(ApplyWrites(book, writes), symbol)
      == (if LastWrite(writes, symbol).Some? then LastWrite(writes, symbol) else GetPrice(book, symbol))
    decreases |writes|
  {
    if |writes| > 0 {
      LastWriteWins(UpdatePrice(book, writes[0].symbol, writes[0].price), writes[1..], symbol);
    }
  }

  /** A symbol no call ever wrote reads as `None`. */
  lemma NeverWrittenIsUnset(writes: seq<Write>, symbol: string)
    requires forall i :: 0 <= i < |writes| ==> writes[i].symbol != symbol
    ensures GetPrice(ApplyWrites(Empty, writes), symbol) == None
  {
    NoWriteNoLast(writes, symbol);
    LastWriteWins(Empty, writes, symbol);
  }

  lemma {:induction false} NoWriteNoLast(writes: seq<Write>, symbol: string)
    requires forall i :: 0 <= i < |writes| ==> writes[i].symbol != symbol
    ensures LastWrite(writes, symbol) == None
    decreases |writes|
  {
    if |writes| > 0 {
      NoWriteNoLast(writes[1..], symbol);
    }
  }

  /** `all` is some interleaving of the calls of two threads, each thread's
      calls kept in its own program order. */
  ghost predicate Interleaving(all: seq<Write>, mine: seq<Write>, theirs: seq<Write>)
    decreases |all|
  {
    if |all| == 0 then mine == [] && theirs == []
    else
      || (|mine| > 0 && all[0] == mine[0] && Interleaving(all[1..], mine[1..], theirs))
      || (|theirs| > 0 && all[0] == theirs[0] && Interleaving(all[1..], mine, theirs[1..]))
  }

  /** Writers of disjoint symbols do not disturb each other: however the
      lock orders two threads' calls, a symbol only one thread writes ends
      with that thread's last write to it. */
  lemma {:induction false} DisjointWritersInterleave(all: seq<Write>, mine: seq<Write>, theirs: seq<Write>, symbol: string)
    requires Interleaving(all, mine, theirs)
    requires forall i :: 0 <= i < |theirs| ==> theirs[i].symbol != symbol
    ensures LastWrite(all, symbol) == LastWrite(mine, symbol)
    decreases |all|
  {
    if |all| > 0 {
      if |mine| > 0 && all[0] == mine[0] && Interleaving(all[1..], mine[1..], theirs) {
        DisjointWritersInterleave(all[1..], mine[1..], theirs, symbol);
      } else {
        assert forall i :: 0 <= i < |theirs[1..]| ==> theirs[1..][i].symbol != symbol by {
          forall i | 0 <= i < |theirs[1..]|
            ensures theirs[1..][i].symbol != symbol
          {
            assert theirs[1..][i] == theirs[i + 1];
          }
        }
        DisjointWritersInterleave(all[1..], mine, theirs[1..], symbol);
      }
    }
  }

  /** A snapshot is a copy: writes after it was taken change the book, not
      the snapshot, and the next snapshot differs from it only at the
      symbols written in between. */
  lemma SnapshotIsACopy(book: PriceBook, writes: seq<Write>, symbol: string)
    requires forall i :: 0 <= i < |writes| ==> writes[i].symbol != symbol
    ensures var before := GetAllPrices(book);
            var after := GetAllPrices(ApplyWrites(book, writes));
            (symbol in before <==> symbol in after)
            && (symbol in before ==> before[symbol] == after[symbol])
  {
    NoWriteNoLast(writes, symbol);
    LastWriteWins(book, writes, symbol);
  }
}
