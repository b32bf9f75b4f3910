/**
 The trade accumulator: folds trade records into a nested map from account id
 to ticker to the prices of that pair's legs, in the order the rows were read.
 */
module TradeAccumulator {
  import opened Records

  /** account id -> ticker -> leg prices, oldest first */
  type Trades = map<int, map<string, seq<real>>>

  /** The price a trade row contributes: its buy price unless that is zero, else its sell price. */
  function LegPrice(rec: TradeRecord): real {
    if rec.buy != 0.0 then rec.buy else rec.sell
  }

  /** The prices recorded for one (account, ticker) pair; empty when the pair is absent. */
  function Prices(trades: Trades, id: int, ticker: string): seq<real> {
    if id in trades && ticker in trades[id] then trades[id][ticker] else []
  }

  /** The (account, ticker) pairs present in the map. */
  function Pairs(trades: Trades): set<(int, string)> {
    set id, ticker | id in trades && ticker in trades[id] :: (id, ticker)
  }

  /** No account without tickers and no pair without a price: the map holds nothing empty. */
  predicate WellFormed(trades: Trades) {
    && (forall id :: id in trades ==> trades[id] != map[])
    && (forall id, ticker :: id in trades && ticker in trades[id] ==> trades[id][ticker] != [])
  }

  /**
   Records one trade: appends its leg price to its pair's sequence, creating
   the account's map and the pair's sequence on first sight.
   */
  function AddTrade(trades: Trades, rec: TradeRecord): (r: Trades)
    ensures Prices(r, rec.id, rec.ticker) == Prices(trades, rec.id, rec.ticker) + [LegPrice(rec)]
    ensures forall id, ticker :: (id, ticker) != (rec.id, rec.ticker) ==> Prices(r, id, ticker) == Prices(trades, id, ticker)
    ensures r.Keys == trades.Keys + {rec.id}
    ensures Pairs(r) == Pairs(trades) + {(rec.id, rec.ticker)}
    ensures WellFormed(trades) ==> WellFormed(r)
  {
    var price := LegPrice(rec);
    var inner :=
      if rec.id !in trades then map[rec.ticker := [price]]
      else if rec.ticker !in trades[rec.id] then trades[rec.id][rec.ticker := [price]]
      else trades[rec.id][rec.ticker := trades[rec.id][rec.ticker] + [price]];
    PairsInsert(trades, rec.id, rec.ticker, inner);
    trades[rec.id := inner]
  }

  /** Giving an account a ticker map that adds one ticker to its old one adds exactly that pair. */
  lemma PairsInsert(trades: Trades, id: int, ticker: string, inner: map<string, seq<real>>)
    requires inner.Keys == (if id in trades then trades[id].Keys else {}) + {ticker}
    ensures Pairs(trades[id := inner]) == Pairs(trades) + {(id, ticker)}
  {
    var after := trades[id := inner];
    forall p | p in Pairs(after)
      ensures p in Pairs(trades) + {(id, ticker)}
    {
      if p.0 != id {
        assert p.0 in trades && p.1 in trades[p.0];
      } else if p.1 != ticker {
        assert p.1 in trades[id];
      }
    }
    forall p | p in Pairs(trades) + {(id, ticker)}
      ensures p in Pairs(after)
    {
      assert p.0 in after && p.1 in after[p.0];
    }
  }

  /** Reference definition: the leg prices of the records of one pair, in record order. */
  function Legs(recs: seq<TradeRecord>, id: int, ticker: string): seq<real> {
    if |recs| == 0 then []
    else
      var last := recs[|recs| - 1];
      Legs(recs[..|recs| - 1], id, ticker) +
        (if last.id == id && last.ticker == ticker then [LegPrice(last)] else [])
  }

  /** Reference definition: the pairs some record names. */
  function RecordPairs(recs: seq<TradeRecord>): set<(int, string)> {
    set k | 0 <= k < |recs| :: (recs[k].id, recs[k].ticker)
  }

  /** The positions of the records of one pair. */
  function Matching(recs: seq<TradeRecord>, id: int, ticker: string): set<nat> {
    set k: nat | k < |recs| && recs[k].id == id && recs[k].ticker == ticker
  }

  /** A pair has one leg price per record of that pair. */
  lemma {:induction false} LegsCount(recs: seq<TradeRecord>, id: int, ticker: string)
    ensures |Legs(recs, id, ticker)| == |Matching(recs, id, ticker)|
  {
    if |recs| > 0 {
      var n := |recs| - 1;
      LegsCount(recs[..n], id, ticker);
      var last := recs[n];
      if last.id == id && last.ticker == ticker {
        assert Matching(recs, id, ticker) == Matching(recs[..n], id, ticker) + {n};
      } else {
        assert Matching(recs, id, ticker) == Matching(recs[..n], id, ticker);
      }
    }
  }

  /**
   The leg prices of a pair are exactly the leg prices of its records, in
   record order: the j-th price comes from the j-th record of that pair.
   */
  lemma {:induction false} LegsInOrder(recs: seq<TradeRecord>, id: int, ticker: string, k: nat)
    requires k < |recs| && recs[k].id == id && recs[k].ticker == ticker
    ensures var j := |Legs(recs[..k], id, ticker)|;
      j < |Legs(recs, id, ticker)| && Legs(recs, id, ticker)[j] == LegPrice(recs[k])
  {
    var n := |recs| - 1;
    if k == n {
      assert recs[..n] == recs[..k];
    } else {
      LegsInOrder(recs[..n], id, ticker, k);
      assert recs[..n][..k] == recs[..k];
    }
  }

  /** Folding records into the map, one after another, starting from the empty map. */
  function Accumulate(recs: seq<TradeRecord>): Trades {
    if |recs| == 0 then map[]
    else AddTrade(Accumulate(recs[..|recs| - 1]), recs[|recs| - 1])
  }

  /** The map groups the records: the right pairs, each with its records' leg prices, nothing empty. */
  ghost predicate Groups(trades: Trades, recs: seq<TradeRecord>) {
    && WellFormed(trades)
    && Pairs(trades) == RecordPairs(recs)
    && forall id, ticker :: Prices(trades, id, ticker) == Legs(recs, id, ticker)
  }

  /** The empty map groups the empty history. */
  lemma GroupsEmpty()
    ensures Groups(map[], [])
  {
    assert Pairs(map[]) == {};
    assert RecordPairs([]) == {};
  }

  /** Recording one more trade keeps the map the grouping of all records so far. */
  lemma AddTradeStep(trades: Trades, recs: seq<TradeRecord>, rec: TradeRecord)
    requires Groups(trades, recs)
    ensures Groups(AddTrade(trades, rec), recs + [rec])
  {
    RecordPairsSnoc(recs, rec);
    assert (recs + [rec])[..|recs|] == recs;
  }

  /** The fold agrees with the reference definitions on every pair. */
  lemma {:induction false} AccumulateIsGrouping(recs: seq<TradeRecord>)
    ensures Groups(Accumulate(recs), recs)
  {
    AccumulateWellFormed(recs);
    AccumulatePairs(recs);
    forall id, ticker
      ensures Prices(Accumulate(recs), id, ticker) == Legs(recs, id, ticker)
    {
      AccumulatePrices(recs, id, ticker);
    }
  }

  lemma {:induction false} AccumulateWellFormed(recs: seq<TradeRecord>)
    ensures WellFormed(Accumulate(recs))
  {
    if |recs| > 0 {
      AccumulateWellFormed(recs[..|recs| - 1]);
    }
  }

  lemma {:induction false} AccumulatePairs(recs: seq<TradeRecord>)
    ensures Pairs(Accumulate(recs)) == RecordPairs(recs)
  {
    if |recs| > 0 {
      var n := |recs| - 1;
      AccumulatePairs(recs[..n]);
      RecordPairsSnoc(recs[..n], recs[n]);
      assert recs[..n] + [recs[n]] == recs;
    }
  }

  lemma {:induction false} AccumulatePrices(recs: seq<TradeRecord>, id: int, ticker: string)
    ensures Prices(Accumulate(recs), id, ticker) == Legs(recs, id, ticker)
  {
    if |recs| > 0 {
      AccumulatePrices(recs[..|recs| - 1], id, ticker);
    }
  }

  lemma RecordPairsSnoc(recs: seq<TradeRecord>, rec: TradeRecord)
    ensures RecordPairs(recs + [rec]) == RecordPairs(recs) + {(rec.id, rec.ticker)}
  {
    var all := recs + [rec];
    assert forall k :: 0 <= k < |recs| ==> all[k] == recs[k];
    assert all[|recs|] == rec;
  }

  /**
   Reads every trade row in order and records it. The first row that does not
   convert ends the run with that row's error and no map at all; otherwise
   each pair maps to the leg prices of its rows, in row order.
   */
  method ParseTradesInfo(rows: seq<Row>) returns (r: Result<Trades>)
    requires Wide(rows)
    ensures match ParseAll(rows, MakeTradeRecord)
      case Err(e) => r == Err(e)
      case Ok(recs) => r.Ok? && Groups(r.value, recs)
  {
    var trades: Trades := map[];
    ghost var recs: seq<TradeRecord> := [];
    GroupsEmpty();
    var i := 0;
    while i < |rows|
      invariant 0 <= i <= |rows|
      invariant |recs| == i
      invariant ParsedPrefix(rows, MakeTradeRecord, recs)
      invariant Groups(trades, recs)
    {
      var parsed := MakeTradeRecord(rows[i]);
      if parsed.Err? {
        FirstFailureDecides(rows, MakeTradeRecord, i);
        return Err(parsed.error);
      }
      var rec := parsed.value;
      ParsedPrefixStep(rows, MakeTradeRecord, recs, rec);
      AddTradeStep(trades, recs, rec);
      trades := AddTrade(trades, rec);
      recs := recs + [rec];
      i := i + 1;
    }
    AllParsedDecides(rows, MakeTradeRecord, recs);
    r := Ok(trades);
  }
}
