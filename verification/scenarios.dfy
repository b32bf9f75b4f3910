/**
 Worked examples of the engine on a two-row trade history and a two-candle
 window for one account and one ticker.
 */
module Scenarios {
  import opened Records
  import opened TradeAccumulator
  import opened CandleReducer
  import opened OutputJoiner

  const SellFirst := TradeRecord(1, "X", 0.0, 12.5)
  const BuyLater := TradeRecord(1, "X", 10.0, 0.0)
  const Early := CandleRecord("X", "t1", 20.0, 5.0)
  const Late := CandleRecord("X", "t2", 15.0, 3.0)

  /** Leg prices are kept in row order, so a sell read before a buy is the first price. */
  lemma LegsFollowRowOrder()
    ensures Prices(Accumulate([SellFirst, BuyLater]), 1, "X") == [12.5, 10.0]
  {
    var recs := [SellFirst, BuyLater];
    assert recs[..1] == [SellFirst] && [SellFirst][..0] == [];
    assert Accumulate([]) == map[];
    var once := Accumulate([SellFirst]);
    assert once == AddTrade(Accumulate([]), SellFirst);
    assert Prices(once, 1, "X") == [12.5];
  }

  /** The maximum comes from the first candle and the minimum from the second. */
  lemma WindowExtremes()
    ensures Reduce(Unseen, [Early, Late]) == PriceInfo(3.0, 20.0, "t2", "t1")
  {
    var recs := [Early, Late];
    assert recs[..1] == [Early] && [Early][..0] == [];
    assert Reduce(Unseen, [Early]) == UpdatePriceInfo(Unseen, Early);
  }

  /** Joining the two: realized gain -2.5, best gain 17, shortfall 19.5. */
  lemma JoinedRow()
    ensures MakeRecord(1, "X", [12.5, 10.0], PriceInfo(3.0, 20.0, "t2", "t1")) ==
      [IdField(1), TextField("X"), Amount(-2.5), Amount(17.0), Amount(19.5), TextField("t1"), TextField("t2")]
  {
  }

  /** An equal later maximum or minimum leaves the earlier time label in place. */
  lemma TiesKeepFirstLabel()
    ensures Reduce(Unseen, [Early, CandleRecord("X", "t3", 20.0, 5.0)]) == PriceInfo(5.0, 20.0, "t1", "t1")
  {
    var recs := [Early, CandleRecord("X", "t3", 20.0, 5.0)];
    assert recs[..1] == [Early] && [Early][..0] == [];
    assert Reduce(Unseen, [Early]) == UpdatePriceInfo(Unseen, Early);
  }
}
