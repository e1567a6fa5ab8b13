/** The dashboard's derived views (src/pages/Dashboard.jsx): three rankings,
    each a copy of the record list sorted by `(a, b) => b[k] - a[k]`, whose
    first and last records are shown as the highest and lowest values, and
    the list of records trading near their 52-week high, cut to five rows
    for display. */
module Dashboard {
  import opened Wrappers
  import opened DataUtils
  import opened Seqs
  import opened Sorting
  import opened Comparators

  // ---------------------------------------------------------------------------
  // Rankings

  /** `[...stocks].sort((a, b) => b[m] - a[m])`, as a value. */
  function Ranking(m: NumColumn, stocks: seq<Stock>): (r: seq<Stock>)
    ensures |r| == |stocks|
  {
    Sort(Compare(Difference(m)), stocks)
  }

  /** `r` does not increase in property `m`. */
  ghost predicate Descending(m: NumColumn, r: seq<Stock>) {
    forall i, j :: 0 <= i < j < |r| ==> NumOf(r[i], m) >= NumOf(r[j], m)
  }

  /** `x` is the earliest record of `s` holding the largest value of `m`. */
  ghost predicate EarliestMax(m: NumColumn, s: seq<Stock>, x: Stock) {
    exists i :: 0 <= i < |s| && s[i] == x &&
      (forall j :: 0 <= j < |s| ==> NumOf(s[j], m) <= NumOf(x, m)) &&
      (forall j :: 0 <= j < i ==> NumOf(s[j], m) < NumOf(x, m))
  }

  /** `x` is the latest record of `s` holding the smallest value of `m`. */
  ghost predicate LatestMin(m: NumColumn, s: seq<Stock>, x: Stock) {
    exists i :: 0 <= i < |s| && s[i] == x &&
      (forall j :: 0 <= j < |s| ==> NumOf(x, m) <= NumOf(s[j], m)) &&
      (forall j :: i < j < |s| ==> NumOf(x, m) < NumOf(s[j], m))
  }

  /** A ranking is a permutation of the records, in non-increasing order of its key, in
      which records with equal keys keep their list order. */
  lemma RankingOrder(m: NumColumn, stocks: seq<Stock>)
    ensures |Ranking(m, stocks)| == |stocks|
    ensures multiset(Ranking(m, stocks)) == multiset(stocks)
    ensures Descending(m, Ranking(m, stocks))
    ensures StableWrt(KeyFn(Difference(m)), Ranking(m, stocks), stocks)
  {
    var c := Difference(m);
    CompareConsistent(c);
    SortCorrect(Compare(c), KeyFn(c), stocks);
    var r := Ranking(m, stocks);
    forall i, j | 0 <= i < j < |r|
      ensures NumOf(r[i], m) >= NumOf(r[j], m)
    {
      assert !Precedes(Compare(c), r[j], r[i]);
    }
  }

  /** The dashboard comparator puts `a` first exactly when its value is larger. */
  lemma DifferenceOrder(m: NumColumn, a: Stock, b: Stock)
    ensures Precedes(Compare(Difference(m)), a, b) <==> NumOf(a, m) > NumOf(b, m)
    ensures KeyFn(Difference(m))(a) == KeyFn(Difference(m))(b) <==> NumOf(a, m) == NumOf(b, m)
  {
  }

  /** Because the sort is stable, the first record of a ranking is the earliest record
      holding the largest value. */
  lemma RankingFirst(m: NumColumn, s: seq<Stock>)
    requires |s| > 0
    ensures EarliestMax(m, s, Ranking(m, s)[0])
  {
    var c := Difference(m);
    CompareConsistent(c);
    SortFirst(Compare(c), KeyFn(c), s);
    var i :| 0 <= i < |s| && s[i] == Ranking(m, s)[0] &&
             (forall j :: 0 <= j < |s| ==> !Precedes(Compare(c), s[j], s[i])) &&
             (forall j :: 0 <= j < i ==> KeyFn(c)(s[j]) != KeyFn(c)(s[i]));
    forall j | 0 <= j < |s|
      ensures NumOf(s[j], m) <= NumOf(s[i], m)
    {
      DifferenceOrder(m, s[j], s[i]);
    }
    forall j | 0 <= j < i
      ensures NumOf(s[j], m) < NumOf(s[i], m)
    {
      DifferenceOrder(m, s[j], s[i]);
    }
  }

  /** The last record of a ranking is the latest record holding the smallest value. */
  lemma RankingLast(m: NumColumn, s: seq<Stock>)
    requires |s| > 0
    ensures LatestMin(m, s, Ranking(m, s)[|s| - 1])
  {
    var c := Difference(m);
    CompareConsistent(c);
    SortLast(Compare(c), KeyFn(c), s);
    var i :| 0 <= i < |s| && s[i] == Ranking(m, s)[|s| - 1] &&
             (forall j :: 0 <= j < |s| ==> !Precedes(Compare(c), s[i], s[j])) &&
             (forall j :: i < j < |s| ==> KeyFn(c)(s[j]) != KeyFn(c)(s[i]));
    forall j | 0 <= j < |s|
      ensures NumOf(s[i], m) <= NumOf(s[j], m)
    {
      DifferenceOrder(m, s[i], s[j]);
    }
    forall j | i < j < |s|
      ensures NumOf(s[i], m) < NumOf(s[j], m)
    {
      DifferenceOrder(m, s[j], s[i]);
    }
  }

  /** The five records the ranking cards show. */
  datatype Picks = Picks(highestPE: Stock, lowestPE: Stock, highestYield: Stock,
                         highestGain: Stock, highestLoss: Stock)

  /** `[...stocks].sort(cmp)` on a fresh copy. */
  method SortByDescending(m: NumColumn, stocks: seq<Stock>) returns (r: seq<Stock>)
    ensures r == Ranking(m, stocks)
  {
    CompareConsistent(Difference(m));
    r := SortedCopy(Compare(Difference(m)), KeyFn(Difference(m)), stocks);
  }

  /** The three rankings and the picks read off their ends. With no records the picks
      are `undefined` (`None`); the page dereferences them regardless. */
  method ComputePicks(stocks: seq<Stock>) returns (picks: Option<Picks>)
    ensures picks.None? <==> stocks == []
    ensures picks.Some? ==>
              && EarliestMax(Pe, stocks, picks.value.highestPE)
              && LatestMin(Pe, stocks, picks.value.lowestPE)
              && EarliestMax(DividendYield, stocks, picks.value.highestYield)
              && EarliestMax(ChangePercent, stocks, picks.value.highestGain)
              && LatestMin(ChangePercent, stocks, picks.value.highestLoss)
  {
    var byPE := SortByDescending(Pe, stocks);
    var byYield := SortByDescending(DividendYield, stocks);
    var byChange := SortByDescending(ChangePercent, stocks);
    if |stocks| == 0 {
      return None;
    }
    RankingOrder(Pe, stocks);
    RankingOrder(DividendYield, stocks);
    RankingOrder(ChangePercent, stocks);
    RankingFirst(Pe, stocks);
    RankingLast(Pe, stocks);
    RankingFirst(DividendYield, stocks);
    RankingFirst(ChangePercent, stocks);
    RankingLast(ChangePercent, stocks);
    picks := Some(Picks(byPE[0], byPE[|byPE| - 1], byYield[0], byChange[0], byChange[|byChange| - 1]));
  }

  // ---------------------------------------------------------------------------
  // Near the 52-week high

  /** Trading within 5% of the 52-week high. */
  predicate IsNearHigh(x: Stock) {
    x.price >= x.high52 * 0.95
  }

  /** `stocks.filter(s => s.price >= s.high52 * 0.95)`. */
  function NearHigh(stocks: seq<Stock>): (r: seq<Stock>)
    ensures IsSubsequence(r, stocks)
    ensures forall x :: x in r <==> x in stocks && x.price >= x.high52 * 0.95
    ensures forall x :: multiset(r)[x] == if IsNearHigh(x) then multiset(stocks)[x] else 0
  {
    FilterIsSubsequence(IsNearHigh, stocks);
    forall x
      ensures multiset(Filter(IsNearHigh, stocks))[x] == if IsNearHigh(x) then multiset(stocks)[x] else 0
    {
      FilterMultiset(IsNearHigh, stocks, x);
    }
    Filter(IsNearHigh, stocks)
  }

  /** A record without a 52-week high (0) and a non-negative price is always near it. */
  lemma NoHighIsNearHigh(stocks: seq<Stock>, x: Stock)
    requires x in stocks && x.high52 == 0.0 && x.price >= 0.0
    ensures x in NearHigh(stocks)
  {
  }

  /** `nearHigh.slice(0, 5)`: the table shows the first near-high records, at most five. */
  function NearHighShown(stocks: seq<Stock>): (r: seq<Stock>)
    ensures |r| == if |NearHigh(stocks)| < 5 then |NearHigh(stocks)| else 5
    ensures forall i :: 0 <= i < |r| ==> r[i] == NearHigh(stocks)[i]
    ensures forall x :: x in r ==> x in stocks && IsNearHigh(x)
  {
    var all := NearHigh(stocks);
    if |all| < 5 then all else all[..5]
  }
}
