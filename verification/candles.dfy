/**
 The candle reducer: folds candle records into one price summary per ticker,
 keeping the lowest window minimum and the highest window maximum seen, each
 with the time label of the row that first reached it.
 */
module CandleReducer {
  import opened Records

  /** Running extremes of one ticker and the time labels at which they were seen. */
  datatype PriceInfo = PriceInfo(min: real, max: real, timeMin: string, timeMax: string)

  type Candles = map<string, PriceInfo>

  /** The largest finite 64-bit float, (2^53 - 1) * 2^971, written out exactly. */
  const MaxFloat64: real :=
    179769313486231570814527423731704356798070567525844996598917476803157260780028538760589558632766878171540458953514382464234321326889464182768467546703537516986049910576551282076245490090389328944075868508455133942304583236903222948165808559332123348274797826204144723168738177180919299881250404026184124858368.0

  /** The summary a ticker starts from on first sight: no minimum and no maximum seen yet. */
  const Unseen := PriceInfo(MaxFloat64, 0.0, "", "")

  /**
   Folds one observation into a summary. Only a strictly higher maximum or a
   strictly lower minimum replaces the stored one, so on a tie the earlier
   time label stays.
   */
  function UpdatePriceInfo(prev: PriceInfo, rec: CandleRecord): (r: PriceInfo)
    ensures r.max >= prev.max && r.max >= rec.maxPrice
    ensures r.min <= prev.min && r.min <= rec.minPrice
    ensures r.max == prev.max || r.max == rec.maxPrice
    ensures r.min == prev.min || r.min == rec.minPrice
    ensures rec.maxPrice <= prev.max ==> r.max == prev.max && r.timeMax == prev.timeMax
    ensures rec.maxPrice > prev.max ==> r.timeMax == rec.time
    ensures rec.minPrice >= prev.min ==> r.min == prev.min && r.timeMin == prev.timeMin
    ensures rec.minPrice < prev.min ==> r.timeMin == rec.time
  {
    var withMax := if prev.max < rec.maxPrice then prev.(max := rec.maxPrice, timeMax := rec.time) else prev;
    if withMax.min > rec.minPrice then withMax.(min := rec.minPrice, timeMin := rec.time) else withMax
  }

  /** Folds one observation into its ticker's summary, starting a new ticker from `Unseen`. */
  function AddCandle(candles: Candles, rec: CandleRecord): (r: Candles)
    ensures r.Keys == candles.Keys + {rec.ticker}
    ensures rec.ticker !in candles ==> r[rec.ticker] == UpdatePriceInfo(Unseen, rec)
    ensures rec.ticker in candles ==> r[rec.ticker] == UpdatePriceInfo(candles[rec.ticker], rec)
    ensures forall t :: t in candles && t != rec.ticker ==> r[t] == candles[t]
  {
    var info := if rec.ticker in candles then candles[rec.ticker] else Unseen;
    candles[rec.ticker := UpdatePriceInfo(info, rec)]
  }

  /** Folds a sequence of observations, oldest first, into `init`. */
  function Reduce(init: PriceInfo, recs: seq<CandleRecord>): PriceInfo {
    if |recs| == 0 then init
    else UpdatePriceInfo(Reduce(init, recs[..|recs| - 1]), recs[|recs| - 1])
  }

  /** The observations of one ticker, in their original order. */
  function RowsOf(recs: seq<CandleRecord>, ticker: string): seq<CandleRecord> {
    if |recs| == 0 then []
    else
      var last := recs[|recs| - 1];
      RowsOf(recs[..|recs| - 1], ticker) + (if last.ticker == ticker then [last] else [])
  }

  /** The tickers some observation names. */
  function Tickers(recs: seq<CandleRecord>): set<string> {
    set k | 0 <= k < |recs| :: recs[k].ticker
  }

  /** Row k has the greatest maximum and no earlier row reaches it. */
  predicate FirstHighest(recs: seq<CandleRecord>, k: int) {
    && 0 <= k < |recs|
    && (forall j :: 0 <= j < |recs| ==> recs[j].maxPrice <= recs[k].maxPrice)
    && (forall j :: 0 <= j < k ==> recs[j].maxPrice < recs[k].maxPrice)
  }

  /** Row k has the least minimum and no earlier row reaches it. */
  predicate FirstLowest(recs: seq<CandleRecord>, k: int) {
    && 0 <= k < |recs|
    && (forall j :: 0 <= j < |recs| ==> recs[k].minPrice <= recs[j].minPrice)
    && (forall j :: 0 <= j < k ==> recs[k].minPrice < recs[j].minPrice)
  }

  /**
   Reference definition of a ticker's summary: the maximum is the greatest
   window maximum when one exceeds 0, else 0 with an empty label; the minimum
   is the least window minimum when one is below MaxFloat64, else MaxFloat64
   with an empty label; each label is that of the first row reaching the extreme.
   */
  ghost predicate Summarizes(recs: seq<CandleRecord>, s: PriceInfo) {
    && (if exists j :: 0 <= j < |recs| && recs[j].maxPrice > 0.0 then
          exists k :: FirstHighest(recs, k) && s.max == recs[k].maxPrice && s.timeMax == recs[k].time
        else s.max == 0.0 && s.timeMax == "")
    && (if exists j :: 0 <= j < |recs| && recs[j].minPrice < MaxFloat64 then
          exists k :: FirstLowest(recs, k) && s.min == recs[k].minPrice && s.timeMin == recs[k].time
        else s.min == MaxFloat64 && s.timeMin == "")
  }

  /**
   The maximum side of folding `recs` into `init` gave `s`: `s` bounds the
   start and every row; it keeps the start when no row exceeds it, else it is
   the first row reaching the greatest maximum.
   */
  ghost predicate FoldsMax(init: PriceInfo, recs: seq<CandleRecord>, s: PriceInfo) {
    && s.max >= init.max
    && (forall j :: 0 <= j < |recs| ==> recs[j].maxPrice <= s.max)
    && (if forall j :: 0 <= j < |recs| ==> recs[j].maxPrice <= init.max then
          s.max == init.max && s.timeMax == init.timeMax
        else
          exists k :: FirstHighest(recs, k) && recs[k].maxPrice > init.max &&
            s.max == recs[k].maxPrice && s.timeMax == recs[k].time)
  }

  /** The minimum side of folding `recs` into `init` gave `s`, mirroring `FoldsMax`. */
  ghost predicate FoldsMin(init: PriceInfo, recs: seq<CandleRecord>, s: PriceInfo) {
    && s.min <= init.min
    && (forall j :: 0 <= j < |recs| ==> s.min <= recs[j].minPrice)
    && (if forall j :: 0 <= j < |recs| ==> init.min <= recs[j].minPrice then
          s.min == init.min && s.timeMin == init.timeMin
        else
          exists k :: FirstLowest(recs, k) && recs[k].minPrice < init.min &&
            s.min == recs[k].minPrice && s.timeMin == recs[k].time)
  }

  lemma MaxStep(init: PriceInfo, prefix: seq<CandleRecord>, rec: CandleRecord, s: PriceInfo)
    requires FoldsMax(init, prefix, s)
    ensures FoldsMax(init, prefix + [rec], UpdatePriceInfo(s, rec))
  {
    var recs := prefix + [rec];
    var n := |prefix|;
    assert forall j :: 0 <= j < n ==> recs[j] == prefix[j];
    assert recs[n] == rec;
    if rec.maxPrice <= s.max {
      if !(forall j :: 0 <= j < n ==> prefix[j].maxPrice <= init.max) {
        var k :| FirstHighest(prefix, k) && prefix[k].maxPrice > init.max &&
          s.max == prefix[k].maxPrice && s.timeMax == prefix[k].time;
        assert FirstHighest(recs, k);
      }
    } else {
      assert FirstHighest(recs, n);
    }
  }

  lemma MinStep(init: PriceInfo, prefix: seq<CandleRecord>, rec: CandleRecord, s: PriceInfo)
    requires FoldsMin(init, prefix, s)
    ensures FoldsMin(init, prefix + [rec], UpdatePriceInfo(s, rec))
  {
    var recs := prefix + [rec];
    var n := |prefix|;
    assert forall j :: 0 <= j < n ==> recs[j] == prefix[j];
    assert recs[n] == rec;
    if rec.minPrice >= s.min {
      if !(forall j :: 0 <= j < n ==> init.min <= prefix[j].minPrice) {
        var k :| FirstLowest(prefix, k) && prefix[k].minPrice < init.min &&
          s.min == prefix[k].minPrice && s.timeMin == prefix[k].time;
        assert FirstLowest(recs, k);
      }
    } else {
      assert FirstLowest(recs, n);
    }
  }

  /** The maximum side of a fold from any start, as `FoldsMax` describes it. */
  lemma {:induction false} ReduceMax(init: PriceInfo, recs: seq<CandleRecord>)
    ensures FoldsMax(init, recs, Reduce(init, recs))
  {
    if |recs| > 0 {
      var n := |recs| - 1;
      ReduceMax(init, recs[..n]);
      MaxStep(init, recs[..n], recs[n], Reduce(init, recs[..n]));
      assert recs[..n] + [recs[n]] == recs;
    }
  }

  /** The minimum side of a fold from any start, as `FoldsMin` describes it. */
  lemma {:induction false} ReduceMin(init: PriceInfo, recs: seq<CandleRecord>)
    ensures FoldsMin(init, recs, Reduce(init, recs))
  {
    if |recs| > 0 {
      var n := |recs| - 1;
      ReduceMin(init, recs[..n]);
      MinStep(init, recs[..n], recs[n], Reduce(init, recs[..n]));
      assert recs[..n] + [recs[n]] == recs;
    }
  }

  /** Folding a ticker's rows from `Unseen` yields exactly its reference summary. */
  lemma {:induction false} ReduceSummarizes(recs: seq<CandleRecord>)
    ensures Summarizes(recs, Reduce(Unseen, recs))
  {
    ReduceMax(Unseen, recs);
    ReduceMin(Unseen, recs);
  }

  lemma TickersSnoc(recs: seq<CandleRecord>, rec: CandleRecord)
    ensures Tickers(recs + [rec]) == Tickers(recs) + {rec.ticker}
  {
    var all := recs + [rec];
    assert forall k :: 0 <= k < |recs| ==> all[k] == recs[k];
    assert all[|recs|] == rec;
  }

  /** The map holds, for each ticker seen, the fold of that ticker's rows from `Unseen`. */
  ghost predicate ReducesAll(candles: Candles, recs: seq<CandleRecord>) {
    && candles.Keys == Tickers(recs)
    && forall t :: t in candles ==> candles[t] == Reduce(Unseen, RowsOf(recs, t))
  }

  /** Folding one more observation into the map keeps it the per-ticker fold of all observations. */
  lemma AddCandleStep(candles: Candles, recs: seq<CandleRecord>, rec: CandleRecord)
    requires ReducesAll(candles, recs)
    ensures ReducesAll(AddCandle(candles, rec), recs + [rec])
  {
    var all := recs + [rec];
    var next := AddCandle(candles, rec);
    assert all[..|recs|] == recs;
    TickersSnoc(recs, rec);
    forall t | t in next
      ensures next[t] == Reduce(Unseen, RowsOf(all, t))
    {
      if t == rec.ticker {
        if t !in candles {
          NoRowsOfUnseen(recs, t);
        }
        var rs := RowsOf(all, t);
        var before := RowsOf(recs, t);
        assert rs == before + [rec];
        assert rs[..|rs| - 1] == before && rs[|rs| - 1] == rec;
        assert Reduce(Unseen, rs) == UpdatePriceInfo(Reduce(Unseen, before), rec);
        assert Reduce(Unseen, before) == (if t in candles then candles[t] else Unseen);
        assert next[t] == UpdatePriceInfo(if t in candles then candles[t] else Unseen, rec);
      } else {
        assert RowsOf(all, t) == RowsOf(recs, t);
        assert t in candles && next[t] == candles[t];
      }
    }
  }

  /**
   Reads every candle row in order and folds it into its ticker's summary.
   The first row that does not convert ends the run with that row's error and
   no map at all; otherwise the map has one entry per ticker seen, and that
   entry summarizes the ticker's rows.
   */
  method ParseCandleInfo(rows: seq<Row>) returns (r: Result<Candles>)
    requires Wide(rows)
    ensures match ParseAll(rows, MakeCandleRecord)
      case Err(e) => r == Err(e)
      case Ok(recs) =>
        && r.Ok?
        && r.value.Keys == Tickers(recs)
        && forall t :: t in r.value ==> Summarizes(RowsOf(recs, t), r.value[t])
  {
    var candles: Candles := map[];
    ghost var recs: seq<CandleRecord> := [];
    var i := 0;
    while i < |rows|
      invariant 0 <= i <= |rows|
      invariant |recs| == i
      invariant ParsedPrefix(rows, MakeCandleRecord, recs)
      invariant ReducesAll(candles, recs)
    {
      var parsed := MakeCandleRecord(rows[i]);
      if parsed.Err? {
        FirstFailureDecides(rows, MakeCandleRecord, i);
        return Err(parsed.error);
      }
      var rec := parsed.value;
      ParsedPrefixStep(rows, MakeCandleRecord, recs, rec);
      AddCandleStep(candles, recs, rec);
      candles := AddCandle(candles, rec);
      recs := recs + [rec];
      i := i + 1;
    }
    AllParsedDecides(rows, MakeCandleRecord, recs);
    forall t | t in candles
      ensures Summarizes(RowsOf(recs, t), candles[t])
    {
      ReduceSummarizes(RowsOf(recs, t));
    }
    r := Ok(candles);
  }

  /** A ticker no observation names has no rows. */
  lemma {:induction false} NoRowsOfUnseen(recs: seq<CandleRecord>, ticker: string)
    requires ticker !in Tickers(recs)
    ensures RowsOf(recs, ticker) == []
  {
    if |recs| > 0 {
      var n := |recs| - 1;
      TickersSnoc(recs[..n], recs[n]);
      assert recs[..n] + [recs[n]] == recs;
      NoRowsOfUnseen(recs[..n], ticker);
    }
  }
}
