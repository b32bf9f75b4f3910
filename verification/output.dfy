/**
 The output joiner: one row per (account, ticker) pair of the trade map,
 combining the pair's realized gain with its ticker's best possible gain.
 */
module OutputJoiner {
  import opened Records
  import opened TradeAccumulator
  import opened CandleReducer

  /** One field of an output row; amounts are kept as numbers, not as formatted text. */
  datatype Field = IdField(id: int) | TextField(text: string) | Amount(value: real)

  type OutputRow = seq<Field>

  // Column positions of an output row.
  const IdColumn := 0
  const TickerColumn := 1
  const UserDiffColumn := 2
  const MaxDiffColumn := 3
  const LostColumn := 4
  const TimeMaxColumn := 5
  const TimeMinColumn := 6
  const RowWidth := 7

  /** The summary a lookup of an absent ticker yields: every field zero or empty. */
  const NoCandles := PriceInfo(0.0, 0.0, "", "")

  /** The ticker's summary, or the all-zero summary when no candle names the ticker. */
  function CandleFor(candles: Candles, ticker: string): (info: PriceInfo)
    ensures ticker in candles ==> info == candles[ticker]
    ensures ticker !in candles ==> info.max - info.min == 0.0 && info.timeMax == "" && info.timeMin == ""
  {
    if ticker in candles then candles[ticker] else NoCandles
  }

  /**
   The output row of one pair. The realized gain is the second leg price less
   the first (the legs are taken as buy then sell purely by position, whatever
   rows they came from); the best possible gain is the window maximum less the
   window minimum; the shortfall is how much the realized gain falls behind the
   best possible one.
   */
  function MakeRecord(id: int, ticker: string, prices: seq<real>, info: PriceInfo): (r: OutputRow)
    requires |prices| >= 2
    ensures |r| == RowWidth
    ensures r[IdColumn] == IdField(id) && r[TickerColumn] == TextField(ticker)
    ensures r[UserDiffColumn].Amount? && r[MaxDiffColumn].Amount? && r[LostColumn].Amount?
    ensures prices[0] + r[UserDiffColumn].value == prices[1]
    ensures info.min + r[MaxDiffColumn].value == info.max
    ensures r[UserDiffColumn].value + r[LostColumn].value == r[MaxDiffColumn].value
    ensures r[TimeMaxColumn] == TextField(info.timeMax) && r[TimeMinColumn] == TextField(info.timeMin)
  {
    var userDiff := prices[1] - prices[0];
    var maxDiff := info.max - info.min;
    var lost := maxDiff - userDiff;
    [IdField(id), TextField(ticker), Amount(userDiff), Amount(maxDiff), Amount(lost),
     TextField(info.timeMax), TextField(info.timeMin)]
  }

  /**
   When the first leg price is no lower than the window minimum and the second
   no higher than the window maximum, the shortfall is at least zero, and it is
   exactly zero only when the first leg is at the minimum and the second at
   the maximum.
   */
  lemma ShortfallNonNegative(id: int, ticker: string, prices: seq<real>, info: PriceInfo)
    requires |prices| >= 2
    requires info.min <= prices[0] && prices[1] <= info.max
    ensures MakeRecord(id, ticker, prices, info)[LostColumn].value >= 0.0
    ensures MakeRecord(id, ticker, prices, info)[LostColumn].value == 0.0 <==>
      prices[0] == info.min && prices[1] == info.max
  {
  }

  /** Every pair of the map has at least a buy and a sell leg recorded. */
  predicate BothLegs(trades: Trades) {
    forall id, ticker :: id in trades && ticker in trades[id] ==> |trades[id][ticker]| >= 2
  }

  /** The output row of a pair of the map. */
  function RowFor(trades: Trades, candles: Candles, pair: (int, string)): OutputRow
    requires BothLegs(trades) && pair in Pairs(trades)
  {
    MakeRecord(pair.0, pair.1, trades[pair.0][pair.1], CandleFor(candles, pair.1))
  }

  /** The rows the join must produce, one per pair of the map, regardless of order. */
  function JoinedRows(trades: Trades, candles: Candles): set<OutputRow>
    requires BothLegs(trades)
  {
    set pair | pair in Pairs(trades) :: RowFor(trades, candles, pair)
  }

  /** The pair an output row is about. */
  function KeyOf(row: OutputRow): (int, string)
    requires |row| == RowWidth && row[IdColumn].IdField? && row[TickerColumn].TextField?
  {
    (row[IdColumn].id, row[TickerColumn].text)
  }

  /** The row of a pair names that pair in its first two columns. */
  lemma RowForKey(trades: Trades, candles: Candles, pair: (int, string))
    requires BothLegs(trades) && pair in Pairs(trades)
    ensures var row := RowFor(trades, candles, pair);
      |row| == RowWidth && row[IdColumn].IdField? && row[TickerColumn].TextField? && KeyOf(row) == pair
  {
  }

  /** `keys` lists the pairs of `done`, each exactly once. */
  ghost predicate Visits(keys: seq<(int, string)>, done: set<(int, string)>) {
    && |keys| == |done|
    && (forall k :: 0 <= k < |keys| ==> keys[k] in done)
    && (forall pair :: pair in done ==> pair in keys)
    && (forall j, k :: 0 <= j < k < |keys| ==> keys[j] != keys[k])
  }

  lemma VisitStep(keys: seq<(int, string)>, done: set<(int, string)>, pair: (int, string))
    requires Visits(keys, done) && pair !in done
    ensures Visits(keys + [pair], done + {pair})
  {
    var keys' := keys + [pair];
    assert forall k :: 0 <= k < |keys| ==> keys'[k] == keys[k];
    assert keys'[|keys|] == pair;
  }

  /**
   The rows emitted so far are those of the visited pairs, one row per pair:
   `keys` lists the visited pairs in emission order, without repeats.
   */
  ghost predicate Emitted(trades: Trades, candles: Candles, out: seq<OutputRow>, keys: seq<(int, string)>, done: set<(int, string)>)
    requires BothLegs(trades)
  {
    && done <= Pairs(trades)
    && Visits(keys, done)
    && |out| == |keys|
    && (forall k :: 0 <= k < |out| ==> out[k] == RowFor(trades, candles, keys[k]))
  }

  lemma EmitStep(trades: Trades, candles: Candles, out: seq<OutputRow>, keys: seq<(int, string)>, done: set<(int, string)>, pair: (int, string))
    requires BothLegs(trades) && Emitted(trades, candles, out, keys, done)
    requires pair in Pairs(trades) && pair !in done
    ensures Emitted(trades, candles, out + [RowFor(trades, candles, pair)], keys + [pair], done + {pair})
  {
    VisitStep(keys, done, pair);
    var out' := out + [RowFor(trades, candles, pair)];
    assert forall k :: 0 <= k < |out| ==> out'[k] == out[k];
  }

  lemma EmittedAll(trades: Trades, candles: Candles, out: seq<OutputRow>, keys: seq<(int, string)>)
    requires BothLegs(trades) && Emitted(trades, candles, out, keys, Pairs(trades))
    ensures |out| == |Pairs(trades)|
    ensures forall k :: 0 <= k < |out| ==> |out[k]| == RowWidth && out[k][IdColumn].IdField? && out[k][TickerColumn].TextField?
    ensures forall k :: 0 <= k < |out| ==> KeyOf(out[k]) in Pairs(trades) && out[k] == RowFor(trades, candles, KeyOf(out[k]))
    ensures forall pair :: pair in Pairs(trades) ==> exists k :: 0 <= k < |out| && KeyOf(out[k]) == pair
    ensures forall j, k :: 0 <= j < k < |out| ==> KeyOf(out[j]) != KeyOf(out[k])
    ensures (set k | 0 <= k < |out| :: out[k]) == JoinedRows(trades, candles)
  {
    forall k | 0 <= k < |out|
      ensures |out[k]| == RowWidth && out[k][IdColumn].IdField? && out[k][TickerColumn].TextField?
      ensures KeyOf(out[k]) == keys[k]
    {
      RowForKey(trades, candles, keys[k]);
    }
    forall pair | pair in Pairs(trades)
      ensures exists k :: 0 <= k < |out| && KeyOf(out[k]) == pair
    {
      var k :| 0 <= k < |keys| && keys[k] == pair;
      assert KeyOf(out[k]) == pair;
    }
  }

  /**
   Emits one row per (account, ticker) pair of the trade map, in whatever
   order the pairs are visited: every pair gets exactly one row, and no row is
   made for a ticker that only the candle data names.
   */
  method PrepareForOutput(trades: Trades, candles: Candles) returns (out: seq<OutputRow>)
    requires BothLegs(trades)
    ensures |out| == |Pairs(trades)|
    ensures forall k :: 0 <= k < |out| ==> |out[k]| == RowWidth && out[k][IdColumn].IdField? && out[k][TickerColumn].TextField?
    ensures forall k :: 0 <= k < |out| ==> KeyOf(out[k]) in Pairs(trades) && out[k] == RowFor(trades, candles, KeyOf(out[k]))
    ensures forall pair :: pair in Pairs(trades) ==> exists k :: 0 <= k < |out| && KeyOf(out[k]) == pair
    ensures forall j, k :: 0 <= j < k < |out| ==> KeyOf(out[j]) != KeyOf(out[k])
    ensures (set k | 0 <= k < |out| :: out[k]) == JoinedRows(trades, candles)
  {
    var pending := Pairs(trades);
    out := [];
    ghost var done: set<(int, string)> := {};
    ghost var keys: seq<(int, string)> := [];
    while pending != {}
      invariant pending <= Pairs(trades) && done == Pairs(trades) - pending
      invariant Emitted(trades, candles, out, keys, done)
      decreases pending
    {
      var pair :| pair in pending;
      var row := MakeRecord(pair.0, pair.1, trades[pair.0][pair.1], CandleFor(candles, pair.1));
      assert row == RowFor(trades, candles, pair);
      EmitStep(trades, candles, out, keys, done, pair);
      out := out + [row];
      keys := keys + [pair];
      pending := pending - {pair};
      done := done + {pair};
    }
    EmittedAll(trades, candles, out, keys);
  }
}
