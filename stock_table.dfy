/** The stock table (src/components/StockTable.jsx): the records sorted on the
    column the user last clicked, in the direction the clicks select, and then
    narrowed to those whose ticker or company name contains the search text,
    ignoring case. */
module StockTableView {
  import opened DataUtils
  import opened Seqs
  import opened Text
  import opened Sorting
  import opened Comparators

  // ---------------------------------------------------------------------------
  // Sort state

  /** `sortConfig`: the column sorted on and the direction. */
  datatype SortConfig = SortConfig(key: Column, direction: Direction)

  /** The table opens sorted by ticker, ascending. */
  const InitialConfig := SortConfig(TextCol(Ticker), Ascending)

  /** `requestSort(key)`: a click on the current column while ascending turns the order
      to descending; any other click sorts that column ascending. */
  function Requested(cfg: SortConfig, key: Column): (r: SortConfig)
    ensures r.key == key
    ensures r.direction == Descending <==> cfg.key == key && cfg.direction == Ascending
  {
    SortConfig(key, if cfg.key == key && cfg.direction == Ascending then Descending else Ascending)
  }

  /** Clicking a column twice toggles the direction. */
  lemma RequestTwiceToggles(cfg: SortConfig, key: Column)
    ensures Requested(Requested(cfg, key), key).key == key
    ensures Requested(Requested(cfg, key), key).direction != Requested(cfg, key).direction
  {
  }

  /** Starting from an ascending column, two clicks on it bring the table back to ascending. */
  lemma RequestTwiceRestores(key: Column)
    ensures Requested(Requested(SortConfig(key, Ascending), key), key) == SortConfig(key, Ascending)
  {
  }

  /** After the first click, clicks on one column alternate with period two. */
  lemma RequestPeriodic(cfg: SortConfig, key: Column)
    ensures Requested(Requested(Requested(cfg, key), key), key) == Requested(cfg, key)
  {
  }

  /** `sortConfig` as the comparator handed to `sort`. */
  function ComparatorOf(cfg: SortConfig): Comparator {
    ByColumn(cfg.key, cfg.direction)
  }

  /** `sortedStocks`, as a value. */
  function SortedBy(cfg: SortConfig, stocks: seq<Stock>): (r: seq<Stock>)
    ensures |r| == |stocks|
  {
    Sort(Compare(ComparatorOf(cfg)), stocks)
  }

  /** `r` is ordered on `cfg.key`: non-decreasing when ascending, non-increasing when
      descending. */
  ghost predicate OrderedBy(cfg: SortConfig, r: seq<Stock>) {
    forall i, j :: 0 <= i < j < |r| ==>
      if cfg.direction == Ascending then !KeyLess(KeyOf(r[j], cfg.key), KeyOf(r[i], cfg.key))
      else !KeyLess(KeyOf(r[i], cfg.key), KeyOf(r[j], cfg.key))
  }

  /** The sorted table is a permutation of the records, ordered on the key in the chosen
      direction, and records with equal keys keep their input order in both directions. */
  lemma SortedByCorrect(cfg: SortConfig, stocks: seq<Stock>)
    ensures multiset(SortedBy(cfg, stocks)) == multiset(stocks)
    ensures OrderedBy(cfg, SortedBy(cfg, stocks))
    ensures StableWrt(KeyFn(ComparatorOf(cfg)), SortedBy(cfg, stocks), stocks)
  {
    var c := ComparatorOf(cfg);
    CompareConsistent(c);
    SortCorrect(Compare(c), KeyFn(c), stocks);
    var r := SortedBy(cfg, stocks);
    forall i, j | 0 <= i < j < |r|
      ensures if cfg.direction == Ascending then !KeyLess(KeyOf(r[j], cfg.key), KeyOf(r[i], cfg.key))
              else !KeyLess(KeyOf(r[i], cfg.key), KeyOf(r[j], cfg.key))
    {
      assert !Precedes(Compare(c), r[j], r[i]);
      NegativeByColumn(cfg.key, cfg.direction, r[j], r[i]);
    }
  }

  /** A record with every field but the ticker and the price fixed. */
  function Sample(ticker: string, price: real): Stock {
    Stock(ticker, ticker, UnknownSector, price, 0.0, 0.0, 0.0, 0.0, 0.0, 0.0, 0.0, NoDescription, [], 0.0, 0.0, 0.0)
  }

  /** Descending is not the reverse of ascending: two records with the same price stay in
      input order whichever direction is chosen. */
  lemma DescendingIsNotReversed()
    ensures SortedBy(SortConfig(NumCol(Price), Ascending), [Sample("A", 1.0), Sample("B", 1.0)])
            == [Sample("A", 1.0), Sample("B", 1.0)]
    ensures SortedBy(SortConfig(NumCol(Price), Descending), [Sample("A", 1.0), Sample("B", 1.0)])
            == [Sample("A", 1.0), Sample("B", 1.0)]
  {
    var s := [Sample("A", 1.0), Sample("B", 1.0)];
    assert s[..1] == [Sample("A", 1.0)];
    assert [Sample("A", 1.0)][..0] == [];
  }

  // ---------------------------------------------------------------------------
  // Search

  /** The ticker or the company name contains the search text, ignoring ASCII case. */
  predicate Matches(x: Stock, filter: string) {
    Occurs(Lower(x.ticker), Lower(filter)) || Occurs(Lower(x.name), Lower(filter))
  }

  /** `filteredStocks`: the records that match, in their order in the table. */
  function Search(sorted: seq<Stock>, filter: string): (r: seq<Stock>)
    ensures |r| <= |sorted|
    ensures IsSubsequence(r, sorted)
    ensures forall x :: x in r <==> x in sorted && Matches(x, filter)
    ensures forall x :: multiset(r)[x] == if Matches(x, filter) then multiset(sorted)[x] else 0
  {
    FilterIsSubsequence(x => Matches(x, filter), sorted);
    forall x
      ensures multiset(Filter(y => Matches(y, filter), sorted))[x] == if Matches(x, filter) then multiset(sorted)[x] else 0
    {
      FilterMultiset(y => Matches(y, filter), sorted, x);
    }
    Filter(x => Matches(x, filter), sorted)
  }

  /** An empty search keeps every record. */
  lemma SearchEmptyKeepsAll(sorted: seq<Stock>)
    ensures Search(sorted, "") == sorted
  {
    forall i | 0 <= i < |sorted|
      ensures Matches(sorted[i], "")
    {
      OccursEmpty(Lower(sorted[i].ticker));
    }
    FilterKeepsAll(x => Matches(x, ""), sorted);
  }

  /** The result depends on the search text only through its lower-cased form. */
  lemma SearchIgnoresCase(sorted: seq<Stock>, f: string, g: string)
    requires Lower(f) == Lower(g)
    ensures Search(sorted, f) == Search(sorted, g)
  {
    FilterAgree(x => Matches(x, f), x => Matches(x, g), sorted);
  }

  /** In particular, typing the search text in upper or lower case gives the same rows. */
  lemma SearchLowerCase(sorted: seq<Stock>, f: string)
    ensures Search(sorted, Lower(f)) == Search(sorted, f)
  {
    LowerIdempotent(f);
    SearchIgnoresCase(sorted, Lower(f), f);
  }

  // ---------------------------------------------------------------------------
  // The component

  /** The table's state: the records it was given and the two pieces of state it keeps. */
  class StockTable {
    const stocks: seq<Stock>
    var sortConfig: SortConfig
    var filter: string

    constructor(stocks: seq<Stock>)
      ensures this.stocks == stocks
      ensures sortConfig == InitialConfig && filter == ""
    {
      this.stocks := stocks;
      sortConfig := InitialConfig;
      filter := "";
    }

    /** A click on a column header. */
    method RequestSort(key: Column)
      modifies this
      ensures sortConfig == Requested(old(sortConfig), key)
      ensures filter == old(filter)
    {
      var direction := Ascending;
      if sortConfig.key == key && sortConfig.direction == Ascending {
        direction := Descending;
      }
      sortConfig := SortConfig(key, direction);
    }

    /** Typing in the search box. */
    method SetFilter(text: string)
      modifies this
      ensures filter == text
      ensures sortConfig == old(sortConfig)
    {
      filter := text;
    }

    /** The rows shown. */
    function Shown(): (r: seq<Stock>)
      reads this
      ensures |r| <= |stocks|
    {
      Search(SortedBy(sortConfig, stocks), filter)
    }

    /** `sortedStocks`: a sorted copy, the records themselves untouched. */
    method SortedStocks() returns (r: seq<Stock>)
      ensures r == SortedBy(sortConfig, stocks)
      ensures multiset(r) == multiset(stocks) && OrderedBy(sortConfig, r)
    {
      var c := ComparatorOf(sortConfig);
      CompareConsistent(c);
      r := SortedCopy(Compare(c), KeyFn(c), stocks);
      SortedByCorrect(sortConfig, stocks);
    }

    /** `filteredStocks` together with the two counts of "Exibindo n de m ações". */
    method FilteredStocks() returns (rows: seq<Stock>, shown: nat, total: nat)
      ensures rows == Shown()
      ensures forall x :: x in rows <==> x in stocks && Matches(x, filter)
      ensures shown == |rows| && total == |stocks| && shown <= total
    {
      var sorted := SortedStocks();
      rows := Search(sorted, filter);
      SortedByCorrect(sortConfig, stocks);
      forall x
        ensures x in sorted <==> x in stocks
      {
        assert x in sorted <==> x in multiset(sorted);
      }
      shown := |rows|;
      total := |stocks|;
    }
  }
}
