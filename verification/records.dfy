/**
 Input rows and the typed records built from them.

 A row is the list of text fields one line of a CSV file holds. The engine
 never converts text itself: each cell carries, next to its text, what the
 integer and the decimal conversions of that text yield (`None` when the text
 is not a number of that kind). Building a record reads fixed columns and
 fails on the first column whose conversion fails.
 */
module Records {

  datatype Option<+T> = None | Some(value: T)

  /** One text field of an input row, with the outcome of converting it. */
  datatype Cell = Cell(text: string, asInt: Option<int>, asFloat: Option<real>)

  type Row = seq<Cell>

  /** Why a row could not be turned into a record; one case per failing column. */
  datatype ParseError =
    | BadUserId
    | BadBuyPrice
    | BadSellPrice
    | BadMaxPrice
    | BadMinPrice

  datatype Result<+T> = Ok(value: T) | Err(error: ParseError)

  /** One executed leg of a trade: zero in `buy` means it is not a buy leg. */
  datatype TradeRecord = TradeRecord(id: int, ticker: string, buy: real, sell: real)

  /** One price-range observation of an instrument over a time window. */
  datatype CandleRecord = CandleRecord(ticker: string, time: string, maxPrice: real, minPrice: real)

  // Column positions of the trade file.
  const UserIdIndex := 0
  const TradeTickerIndex := 2
  const BuyPriceIndex := 3
  const SellPriceIndex := 4

  // Column positions of the candle file.
  const CandleTickerIndex := 0
  const TimeIndex := 1
  const MaxPriceIndex := 3
  const MinPriceIndex := 4

  /** Rows long enough for every column either record reads. */
  predicate Wide(rows: seq<Row>) {
    forall i :: 0 <= i < |rows| ==> |rows[i]| >= 5
  }

  /** Builds a trade record, checking the account id, then the buy price, then the sell price. */
  function MakeTradeRecord(row: Row): (r: Result<TradeRecord>)
    requires |row| >= 5
    ensures r.Ok? <==>
      row[UserIdIndex].asInt.Some? && row[BuyPriceIndex].asFloat.Some? && row[SellPriceIndex].asFloat.Some?
    ensures r.Ok? ==>
      r.value.id == row[UserIdIndex].asInt.value && r.value.ticker == row[TradeTickerIndex].text &&
      r.value.buy == row[BuyPriceIndex].asFloat.value && r.value.sell == row[SellPriceIndex].asFloat.value
    ensures r == Err(BadUserId) <==> row[UserIdIndex].asInt.None?
    ensures r == Err(BadBuyPrice) <==> row[UserIdIndex].asInt.Some? && row[BuyPriceIndex].asFloat.None?
    ensures r.Err? ==> r.error == BadUserId || r.error == BadBuyPrice || r.error == BadSellPrice
  {
    match row[UserIdIndex].asInt
    case None => Err(BadUserId)
    case Some(id) =>
      match row[BuyPriceIndex].asFloat
      case None => Err(BadBuyPrice)
      case Some(buy) =>
        match row[SellPriceIndex].asFloat
        case None => Err(BadSellPrice)
        case Some(sell) => Ok(TradeRecord(id, row[TradeTickerIndex].text, buy, sell))
  }

  /** Builds a candle record, checking the maximum price before the minimum price. */
  function MakeCandleRecord(row: Row): (r: Result<CandleRecord>)
    requires |row| >= 5
    ensures r.Ok? <==> row[MaxPriceIndex].asFloat.Some? && row[MinPriceIndex].asFloat.Some?
    ensures r.Ok? ==>
      r.value.ticker == row[CandleTickerIndex].text && r.value.time == row[TimeIndex].text &&
      r.value.maxPrice == row[MaxPriceIndex].asFloat.value && r.value.minPrice == row[MinPriceIndex].asFloat.value
    ensures r == Err(BadMaxPrice) <==> row[MaxPriceIndex].asFloat.None?
    ensures r.Err? ==> r.error == BadMaxPrice || r.error == BadMinPrice
  {
    match row[MaxPriceIndex].asFloat
    case None => Err(BadMaxPrice)
    case Some(hi) =>
      match row[MinPriceIndex].asFloat
      case None => Err(BadMinPrice)
      case Some(lo) => Ok(CandleRecord(row[CandleTickerIndex].text, row[TimeIndex].text, hi, lo))
  }

  /**
   Converts every row with `parse`, stopping at the first failure: the result
   is either all the records, in row order, or the error of the earliest row
   that failed, never a partial list.
   */
  function ParseAll<T>(rows: seq<Row>, parse: Row --> Result<T>): (r: Result<seq<T>>)
    requires forall i :: 0 <= i < |rows| ==> parse.requires(rows[i])
    ensures r.Ok? <==> forall i :: 0 <= i < |rows| ==> parse(rows[i]).Ok?
    ensures r.Ok? ==> |r.value| == |rows| && forall i :: 0 <= i < |rows| ==> parse(rows[i]) == Ok(r.value[i])
    ensures r.Err? ==>
      exists i :: 0 <= i < |rows| && parse(rows[i]) == Err(r.error) &&
        forall j :: 0 <= j < i ==> parse(rows[j]).Ok?
  {
    if |rows| == 0 then Ok([])
    else
      match parse(rows[0])
      case Err(e) => Err(e)
      case Ok(x) =>
        match ParseAll(rows[1..], parse)
        case Err(e) =>
          ghost var i :| 0 <= i < |rows[1..]| && parse(rows[1..][i]) == Err(e) &&
            forall j :: 0 <= j < i ==> parse(rows[1..][j]).Ok?;
          assert parse(rows[i + 1]) == Err(e);
          Err(e)
        case Ok(xs) => Ok([x] + xs)
  }

  /** `xs` holds the converted records of the first `|xs|` rows, in row order. */
  ghost predicate ParsedPrefix<T>(rows: seq<Row>, parse: Row --> Result<T>, xs: seq<T>)
    requires forall k :: 0 <= k < |rows| ==> parse.requires(rows[k])
  {
    |xs| <= |rows| && forall k :: 0 <= k < |xs| ==> parse(rows[k]) == Ok(xs[k])
  }

  lemma ParsedPrefixStep<T>(rows: seq<Row>, parse: Row --> Result<T>, xs: seq<T>, x: T)
    requires forall k :: 0 <= k < |rows| ==> parse.requires(rows[k])
    requires ParsedPrefix(rows, parse, xs) && |xs| < |rows| && parse(rows[|xs|]) == Ok(x)
    ensures ParsedPrefix(rows, parse, xs + [x])
  {
  }

  /** The earliest failing row decides the outcome, whatever the rows after it hold. */
  lemma {:induction false} FirstFailureDecides<T>(rows: seq<Row>, parse: Row --> Result<T>, i: nat)
    requires forall k :: 0 <= k < |rows| ==> parse.requires(rows[k])
    requires i < |rows| && parse(rows[i]).Err?
    requires forall j :: 0 <= j < i ==> parse(rows[j]).Ok?
    ensures ParseAll(rows, parse) == Err(parse(rows[i]).error)
  {
    if i > 0 {
      var rest := rows[1..];
      assert forall k :: 0 <= k < |rest| ==> rest[k] == rows[k + 1];
      FirstFailureDecides(rest, parse, i - 1);
    }
  }

  /** When every row converts, the result is exactly the converted records. */
  lemma {:induction false} AllParsedDecides<T>(rows: seq<Row>, parse: Row --> Result<T>, xs: seq<T>)
    requires forall k :: 0 <= k < |rows| ==> parse.requires(rows[k])
    requires |xs| == |rows| && forall k :: 0 <= k < |rows| ==> parse(rows[k]) == Ok(xs[k])
    ensures ParseAll(rows, parse) == Ok(xs)
  {
    if |rows| > 0 {
      var rest := rows[1..];
      assert forall k :: 0 <= k < |rest| ==> rest[k] == rows[k + 1];
      AllParsedDecides(rest, parse, xs[1..]);
      assert xs == [xs[0]] + xs[1..];
    }
  }
}
