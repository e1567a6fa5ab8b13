/** The record adapter of `dataUtils.js`: a snapshot dictionary from ticker to
    `{info, historico}` becomes an array of flat stock records, one per entry,
    with JavaScript `||` fallbacks for missing fields; plus the ticker lookup
    and the market summary computed over those records. */
module DataUtils {
  import opened Wrappers

  // ---------------------------------------------------------------------------
  // Raw snapshot values

  /** A scalar as it comes out of the parsed snapshot: a missing property
      (`undefined`), an explicit `null`, a number or a string. */
  datatype Raw = Absent | Null | Num(n: real) | Str(s: string)

  /** JavaScript truthiness: `undefined`, `null`, `0` and `""` are falsy. */
  predicate Truthy(v: Raw) {
    match v
    case Num(n) => n != 0.0
    case Str(s) => s != ""
    case _ => false
  }

  /** A parsed JSON object: reading a property that is not there gives `undefined`. */
  type Info = map<string, Raw>

  function Get(o: Info, key: string): Raw {
    if key in o then o[key] else Absent
  }

  /** The JavaScript `a || b`: `a` when it is truthy, else `b`. A chain `a || b || c`
      is `Or(Or(a, b), c)`. */
  function Or(a: Raw, b: Raw): (r: Raw)
    ensures r == a || r == b
    ensures Truthy(r) <==> Truthy(a) || Truthy(b)
  {
    if Truthy(a) then a else b
  }

  /** A value that may stand in a numeric field of the snapshot. */
  predicate NumericOrMissing(v: Raw) { !v.Str? }

  /** A value that may stand in a text field of the snapshot. */
  predicate TextOrMissing(v: Raw) { !v.Num? }

  /** JavaScript's numeric coercion in `currentPrice - fiftyTwoWeekHigh`: `null` counts as 0. */
  function Coerce(v: Raw): real
    requires v.Num? || v.Null?
  {
    if v.Num? then v.n else 0.0
  }

  /** The field types the snapshot schema gives `info`: numbers (or nothing) in numeric
      fields, strings (or nothing) in text fields; and a current price present whenever the
      52-week high is truthy, since `undefined - high` would be NaN. */
  predicate WellTyped(info: Info) {
    && TextOrMissing(Get(info, "shortName"))
    && TextOrMissing(Get(info, "longName"))
    && TextOrMissing(Get(info, "sector"))
    && TextOrMissing(Get(info, "longBusinessSummary"))
    && NumericOrMissing(Get(info, "currentPrice"))
    && NumericOrMissing(Get(info, "regularMarketPrice"))
    && NumericOrMissing(Get(info, "regularMarketChange"))
    && NumericOrMissing(Get(info, "regularMarketChangePercent"))
    && NumericOrMissing(Get(info, "marketCap"))
    && NumericOrMissing(Get(info, "trailingPE"))
    && NumericOrMissing(Get(info, "forwardPE"))
    && NumericOrMissing(Get(info, "dividendYield"))
    && NumericOrMissing(Get(info, "trailingAnnualDividendYield"))
    && NumericOrMissing(Get(info, "fiftyTwoWeekHigh"))
    && NumericOrMissing(Get(info, "fiftyTwoWeekLow"))
    && NumericOrMissing(Get(info, "percentual_diferenca_media"))
    && NumericOrMissing(Get(info, "fiftyTwoWeekChangePercent"))
    && (Truthy(Get(info, "fiftyTwoWeekHigh")) ==> !Get(info, "currentPrice").Absent?)
  }

  // ---------------------------------------------------------------------------
  // Adapted records

  /** One history point, `{date: item.Date, close: item.Close}`. */
  datatype Point = Point(date: Raw, close: Raw)

  /** The flat record the views consume. */
  datatype Stock = Stock(
    ticker: string,
    name: string,
    sector: string,
    price: real,
    change: real,
    changePercent: real,
    marketCap: real,
    pe: real,
    dividendYield: real,
    high52: real,
    low52: real,
    description: string,
    history: seq<Point>,
    variationMean: real,
    aboveHigh12M: real,
    changePercent12M: real)

  const UnknownSector := "Desconhecido"
  const NoDescription := "Descrição não disponível."

  /** `historico.map(item => ({date: item.Date, close: item.Close}))`. */
  function FormatHistory(items: seq<Info>): (r: seq<Point>)
    ensures |r| == |items|
    ensures forall i :: 0 <= i < |items| ==> r[i].date == Get(items[i], "Date") && r[i].close == Get(items[i], "Close")
  {
    seq(|items|, i requires 0 <= i < |items| => Point(Get(items[i], "Date"), Get(items[i], "Close")))
  }

  /** How far the current price sits above the 52-week high, in percent; 0 when the high is falsy. */
  function AboveHigh(info: Info): (r: real)
    requires WellTyped(info)
    ensures var h := Get(info, "fiftyTwoWeekHigh");
            if Truthy(h) then r * h.n == (Coerce(Get(info, "currentPrice")) - h.n) * 100.0 else r == 0.0
  {
    var h := Get(info, "fiftyTwoWeekHigh");
    if Truthy(h) then ((Coerce(Get(info, "currentPrice")) - h.n) / h.n) * 100.0 else 0.0
  }

  /** The record built for one dictionary entry (the callback of `Object.entries(data).map`). */
  function AdaptRecord(ticker: string, info: Info, historico: seq<Info>): (r: Stock)
    requires WellTyped(info)
    ensures r.ticker == ticker
    ensures var sn, ln := Get(info, "shortName"), Get(info, "longName");
            r.name == if Truthy(sn) then sn.s else if Truthy(ln) then ln.s else ticker
    ensures ticker != "" ==> r.name != ""
    ensures var v := Get(info, "sector"); r.sector == if Truthy(v) then v.s else UnknownSector
    ensures var a, b := Get(info, "currentPrice"), Get(info, "regularMarketPrice");
            r.price == if Truthy(a) then a.n else if Truthy(b) then b.n else 0.0
    ensures var v := Get(info, "regularMarketChange"); r.change == if Truthy(v) then v.n else 0.0
    ensures var v := Get(info, "regularMarketChangePercent"); r.changePercent == if Truthy(v) then v.n else 0.0
    ensures var v := Get(info, "marketCap"); r.marketCap == if Truthy(v) then v.n else 0.0
    ensures var a, b := Get(info, "trailingPE"), Get(info, "forwardPE");
            r.pe == if Truthy(a) then a.n else if Truthy(b) then b.n else 0.0
    ensures var a, b := Get(info, "dividendYield"), Get(info, "trailingAnnualDividendYield");
            r.dividendYield == if Truthy(a) then a.n else if Truthy(b) then b.n else 0.0
    ensures var v := Get(info, "fiftyTwoWeekHigh"); r.high52 == if Truthy(v) then v.n else 0.0
    ensures var v := Get(info, "fiftyTwoWeekLow"); r.low52 == if Truthy(v) then v.n else 0.0
    ensures var v := Get(info, "longBusinessSummary"); r.description == if Truthy(v) then v.s else NoDescription
    ensures |r.history| == |historico|
    ensures forall i :: 0 <= i < |historico| ==>
              r.history[i] == Point(Get(historico[i], "Date"), Get(historico[i], "Close"))
    ensures var v := Get(info, "percentual_diferenca_media"); r.variationMean == if Truthy(v) then v.n else 0.0
    ensures var v := Get(info, "fiftyTwoWeekChangePercent"); r.changePercent12M == if Truthy(v) then v.n else 0.0
    ensures var h := Get(info, "fiftyTwoWeekHigh");
            if Truthy(h) then r.aboveHigh12M * h.n == (Coerce(Get(info, "currentPrice")) - h.n) * 100.0
            else r.aboveHigh12M == 0.0
  {
    Stock(
      ticker := ticker,
      name := Or(Or(Get(info, "shortName"), Get(info, "longName")), Str(ticker)).s,
      sector := Or(Get(info, "sector"), Str(UnknownSector)).s,
      price := Or(Or(Get(info, "currentPrice"), Get(info, "regularMarketPrice")), Num(0.0)).n,
      change := Or(Get(info, "regularMarketChange"), Num(0.0)).n,
      changePercent := Or(Get(info, "regularMarketChangePercent"), Num(0.0)).n,
      marketCap := Or(Get(info, "marketCap"), Num(0.0)).n,
      pe := Or(Or(Get(info, "trailingPE"), Get(info, "forwardPE")), Num(0.0)).n,
      dividendYield := Or(Or(Get(info, "dividendYield"), Get(info, "trailingAnnualDividendYield")), Num(0.0)).n,
      high52 := Or(Get(info, "fiftyTwoWeekHigh"), Num(0.0)).n,
      low52 := Or(Get(info, "fiftyTwoWeekLow"), Num(0.0)).n,
      description := Or(Get(info, "longBusinessSummary"), Str(NoDescription)).s,
      history := FormatHistory(historico),
      variationMean := Or(Get(info, "percentual_diferenca_media"), Num(0.0)).n,
      aboveHigh12M := AboveHigh(info),
      changePercent12M := Or(Get(info, "fiftyTwoWeekChangePercent"), Num(0.0)).n)
  }

  // ---------------------------------------------------------------------------
  // The dictionary

  /** The value of one dictionary entry. `Value(info, historico)` is any non-null value, with
      `info` and `historico` as its property reads: `None` stands for `undefined`, `null` or
      (for a non-object value such as the `last_updated` string) a property that is not there. */
  datatype EntryValue = NullValue | Value(info: Option<Info>, historico: Option<seq<Info>>)

  /** `stockData.info || {}`. */
  function InfoOf(v: EntryValue): Info
    requires v.Value?
  {
    if v.info.Some? then v.info.value else map[]
  }

  /** `stockData.historico || []`. */
  function HistoryOf(v: EntryValue): seq<Info>
    requires v.Value?
  {
    if v.historico.Some? then v.historico.value else []
  }

  /** Reading `.info` of a null entry value throws a `TypeError`. */
  datatype AdaptError = TypeError(key: string)

  /** The position of the first null entry value, or `|data|` when there is none. */
  function FirstNull(data: seq<(string, EntryValue)>): (k: nat)
    ensures k <= |data|
    ensures k < |data| ==> data[k].1.NullValue?
    ensures forall j :: 0 <= j < k ==> data[j].1.Value?
  {
    if data == [] then 0
    else if data[0].1.NullValue? then 0
    else
      var k := FirstNull(data[1..]);
      assert forall j :: 1 <= j < k + 1 ==> data[j] == data[1..][j - 1];
      k + 1
  }

  /** `adaptStockData(data)`, with the dictionary given as its entries in iteration order:
      `map` visits the entries in order and throws at the first null value. */
  function AdaptStockData(data: seq<(string, EntryValue)>): (r: Result<seq<Stock>, AdaptError>)
    requires forall i :: 0 <= i < |data| && data[i].1.Value? ==> WellTyped(InfoOf(data[i].1))
    ensures r.Failure? <==> exists i :: 0 <= i < |data| && data[i].1.NullValue?
    ensures r.Failure? ==>
              exists i :: 0 <= i < |data| && data[i].1.NullValue? && r.error == TypeError(data[i].0) &&
                          forall j :: 0 <= j < i ==> data[j].1.Value?
    ensures r.Success? ==>
              && |r.value| == |data|
              && forall i :: 0 <= i < |data| ==>
                   data[i].1.Value? && r.value[i].ticker == data[i].0 &&
                   r.value[i] == AdaptRecord(data[i].0, InfoOf(data[i].1), HistoryOf(data[i].1))
  {
    var k := FirstNull(data);
    if k < |data| then Failure(TypeError(data[k].0))
    else Success(seq(|data|, i requires 0 <= i < |data| => AdaptRecord(data[i].0, InfoOf(data[i].1), HistoryOf(data[i].1))))
  }

  /** Keys are distinct in a parsed dictionary, so the adapted tickers are distinct. */
  lemma TickersUnique(data: seq<(string, EntryValue)>)
    requires forall i :: 0 <= i < |data| && data[i].1.Value? ==> WellTyped(InfoOf(data[i].1))
    requires forall i, j :: 0 <= i < j < |data| ==> data[i].0 != data[j].0
    requires AdaptStockData(data).Success?
    ensures var s := AdaptStockData(data).value;
            forall i, j :: 0 <= i < j < |s| ==> s[i].ticker != s[j].ticker
  {
  }

  /** A metadata entry such as `last_updated` is not skipped: its string value has no `info`
      and no `historico`, so it becomes a record made of defaults. */
  lemma MetadataEntryBecomesDefaultRecord(key: string)
    requires key != ""
    ensures var r := AdaptRecord(key, InfoOf(Value(None, None)), HistoryOf(Value(None, None)));
            && r.ticker == key && r.name == key && r.sector == UnknownSector && r.description == NoDescription
            && r.price == 0.0 && r.pe == 0.0 && r.dividendYield == 0.0 && r.marketCap == 0.0
            && r.high52 == 0.0 && r.aboveHigh12M == 0.0 && r.history == []
  {
  }

  /** `aboveHigh12M` is 0 exactly when the 52-week high is falsy or the current price equals it;
      a `null` current price under a truthy high gives -100, not 0. */
  lemma AboveHighZero(info: Info)
    requires WellTyped(info)
    ensures var h, c := Get(info, "fiftyTwoWeekHigh"), Get(info, "currentPrice");
            AboveHigh(info) == 0.0 <==> !Truthy(h) || Coerce(c) == h.n
    ensures var h, c := Get(info, "fiftyTwoWeekHigh"), Get(info, "currentPrice");
            Truthy(h) && c.Null? ==> AboveHigh(info) == -100.0
  {
    var h, c := Get(info, "fiftyTwoWeekHigh"), Get(info, "currentPrice");
    if Truthy(h) {
      var x := AboveHigh(info);
      assert x * h.n == (Coerce(c) - h.n) * 100.0;
      if x == 0.0 {
        assert (Coerce(c) - h.n) * 100.0 == 0.0;
      }
      if c.Null? {
        assert Coerce(c) == 0.0;
        assert (x + 100.0) * h.n == 0.0;
        assert (0.0 - h.n) / h.n == -1.0;
      }
    }
  }

  /** An instrument priced at 10 with a 52-week high of 20 sits 50% below its high. */
  lemma AboveHighExample()
    ensures var info := map["currentPrice" := Num(10.0), "fiftyTwoWeekHigh" := Num(20.0)];
            WellTyped(info) && AboveHigh(info) == -50.0
  {
    var info := map["currentPrice" := Num(10.0), "fiftyTwoWeekHigh" := Num(20.0)];
    assert WellTyped(info);
    assert AboveHigh(info) * 20.0 == (10.0 - 20.0) * 100.0;
  }

  // ---------------------------------------------------------------------------
  // Queries over the records

  /** `stocks.find(s => s.ticker === ticker)`. */
  function FindByTicker(stocks: seq<Stock>, ticker: string): (r: Option<Stock>)
    ensures r.None? <==> forall i :: 0 <= i < |stocks| ==> stocks[i].ticker != ticker
    ensures r.Some? ==>
              exists i :: 0 <= i < |stocks| && stocks[i] == r.value && r.value.ticker == ticker &&
                          forall j :: 0 <= j < i ==> stocks[j].ticker != ticker
  {
    if stocks == [] then None
    else if stocks[0].ticker == ticker then Some(stocks[0])
    else
      var r := FindByTicker(stocks[1..], ticker);
      assert forall i :: 1 <= i < |stocks| ==> stocks[i] == stocks[1..][i - 1];
      r
  }

  const NotFound := "Stock not found"

  /** `getStockByTicker(ticker)`: resolves with the first record carrying the ticker, or
      rejects with "Stock not found". */
  function GetStockByTicker(stocks: seq<Stock>, ticker: string): (r: Result<Stock, string>)
    ensures r.Failure? <==> forall i :: 0 <= i < |stocks| ==> stocks[i].ticker != ticker
    ensures r.Failure? ==> r.error == NotFound
    ensures r.Success? ==>
              exists i :: 0 <= i < |stocks| && stocks[i] == r.value && r.value.ticker == ticker &&
                          forall j :: 0 <= j < i ==> stocks[j].ticker != ticker
  {
    match FindByTicker(stocks, ticker)
    case Some(s) => Success(s)
    case None => Failure(NotFound)
  }

  /** `stocks.reduce((acc, s) => acc + s.marketCap, 0)`. */
  function TotalMarketCap(stocks: seq<Stock>): real
    decreases |stocks|
  {
    if stocks == [] then 0.0 else TotalMarketCap(stocks[..|stocks| - 1]) + stocks[|stocks| - 1].marketCap
  }

  /** The result of `getMarketSummary` without its clock-dependent `lastUpdated`. */
  datatype Summary = Summary(totalStocks: nat, avgMarketCap: real)

  function MarketSummary(stocks: seq<Stock>): (r: Summary)
    ensures r.totalStocks == |stocks|
    ensures |stocks| == 0 ==> r.avgMarketCap == 0.0
    ensures |stocks| > 0 ==> r.avgMarketCap * (|stocks| as real) == TotalMarketCap(stocks)
  {
    var total := |stocks|;
    Summary(total, if total > 0 then TotalMarketCap(stocks) / (total as real) else 0.0)
  }

  lemma {:induction false} TotalMarketCapBounds(stocks: seq<Stock>, lo: real, hi: real)
    requires forall i :: 0 <= i < |stocks| ==> lo <= stocks[i].marketCap <= hi
    ensures (|stocks| as real) * lo <= TotalMarketCap(stocks) <= (|stocks| as real) * hi
    decreases |stocks|
  {
    if stocks != [] {
      var init := stocks[..|stocks| - 1];
      assert forall i :: 0 <= i < |init| ==> init[i] == stocks[i];
      TotalMarketCapBounds(init, lo, hi);
      var m := |init| as real;
      assert TotalMarketCap(stocks) == TotalMarketCap(init) + stocks[|stocks| - 1].marketCap;
      assert (|stocks| as real) * lo == m * lo + lo && (|stocks| as real) * hi == m * hi + hi;
    }
  }

  /** The average market capitalisation lies between the smallest and the largest one. */
  lemma AverageWithinBounds(stocks: seq<Stock>, lo: real, hi: real)
    requires |stocks| > 0
    requires forall i :: 0 <= i < |stocks| ==> lo <= stocks[i].marketCap <= hi
    ensures lo <= MarketSummary(stocks).avgMarketCap <= hi
  {
    TotalMarketCapBounds(stocks, lo, hi);
    var n := |stocks| as real;
    var avg := MarketSummary(stocks).avgMarketCap;
    assert avg * n == TotalMarketCap(stocks);
    CancelPositive(lo, avg, n);
    CancelPositive(avg, hi, n);
  }

  lemma CancelPositive(a: real, b: real, n: real)
    requires n > 0.0 && n * a <= b * n
    ensures a <= b
  {
    assert (b - a) * n >= 0.0;
  }
}
