/** The two comparators the views hand to `Array.prototype.sort`: the stock
    table's column comparator on `sortConfig` (src/components/StockTable.jsx)
    and the dashboard's `(a, b) => b[k] - a[k]` (src/pages/Dashboard.jsx),
    with the proof that both are consistent comparators. */
module Comparators {
  import opened DataUtils
  import opened Sorting

  // ---------------------------------------------------------------------------
  // Keys and their order

  /** JavaScript `<` on strings: character-wise lexicographic order, a proper
      prefix coming first. */
  predicate StrLess(a: string, b: string)
    decreases |a|
  {
    if a == [] then b != []
    else if b == [] then false
    else if a[0] < b[0] then true
    else if a[0] > b[0] then false
    else StrLess(a[1..], b[1..])
  }

  lemma {:induction false} StrLessIrreflexive(a: string)
    ensures !StrLess(a, a)
    decreases |a|
  {
    if a != [] {
      StrLessIrreflexive(a[1..]);
    }
  }

  lemma {:induction false} StrLessAsymmetric(a: string, b: string)
    requires StrLess(a, b)
    ensures !StrLess(b, a)
    decreases |a|
  {
    if a != [] && b != [] && a[0] == b[0] {
      StrLessAsymmetric(a[1..], b[1..]);
    }
  }

  lemma {:induction false} StrLessTransitive(a: string, b: string, c: string)
    requires StrLess(a, b) && StrLess(b, c)
    ensures StrLess(a, c)
    decreases |a|
  {
    if a != [] && a[0] == b[0] && b[0] == c[0] {
      StrLessTransitive(a[1..], b[1..], c[1..]);
    }
  }

  lemma {:induction false} StrLessTotal(a: string, b: string)
    ensures a == b || StrLess(a, b) || StrLess(b, a)
    decreases |a|
  {
    if a != [] && b != [] && a[0] == b[0] {
      StrLessTotal(a[1..], b[1..]);
      if a[1..] == b[1..] {
        assert a == [a[0]] + a[1..] && b == [b[0]] + b[1..];
      }
    }
  }

  /** The value of one record property used as a sort key. */
  datatype Key = Text(s: string) | Number(x: real)

  /** `a < b` on two keys of the same column (a column never mixes strings and numbers). */
  predicate KeyLess(a: Key, b: Key) {
    match (a, b)
    case (Text(s), Text(t)) => StrLess(s, t)
    case (Number(x), Number(y)) => x < y
    case _ => false
  }

  lemma KeyLessAsymmetric(a: Key, b: Key)
    requires KeyLess(a, b)
    ensures !KeyLess(b, a) && a != b
  {
    if a.Text? {
      StrLessAsymmetric(a.s, b.s);
    }
  }

  /** If `a < d`, every key of the same kind lies above `a` or below `d`. */
  lemma KeyLessSplit(a: Key, b: Key, d: Key)
    requires a.Text? == b.Text? == d.Text?
    requires KeyLess(a, d)
    ensures KeyLess(a, b) || KeyLess(b, d)
  {
    if a.Text? {
      StrLessTotal(a.s, b.s);
      if StrLess(b.s, a.s) {
        StrLessTransitive(b.s, a.s, d.s);
      }
    }
  }

  /** The text properties of a record that a column header can sort by. */
  datatype TextColumn = Ticker | Name | Sector | Description

  /** The numeric properties of a record. */
  datatype NumColumn =
    | Price | Change | ChangePercent | MarketCap | Pe | DividendYield
    | High52 | Low52 | VariationMean | AboveHigh12M | ChangePercent12M

  datatype Column = TextCol(t: TextColumn) | NumCol(m: NumColumn)

  function TextOf(s: Stock, c: TextColumn): string {
    match c
    case Ticker => s.ticker
    case Name => s.name
    case Sector => s.sector
    case Description => s.description
  }

  function NumOf(s: Stock, c: NumColumn): real {
    match c
    case Price => s.price
    case Change => s.change
    case ChangePercent => s.changePercent
    case MarketCap => s.marketCap
    case Pe => s.pe
    case DividendYield => s.dividendYield
    case High52 => s.high52
    case Low52 => s.low52
    case VariationMean => s.variationMean
    case AboveHigh12M => s.aboveHigh12M
    case ChangePercent12M => s.changePercent12M
  }

  /** `s[key]`. */
  function KeyOf(s: Stock, c: Column): Key {
    match c
    case TextCol(t) => Text(TextOf(s, t))
    case NumCol(m) => Number(NumOf(s, m))
  }

  // ---------------------------------------------------------------------------
  // Comparators

  datatype Direction = Ascending | Descending

  /** `ByColumn(col, dir)` is the stock table's comparator on `sortConfig`;
      `Difference(m)` is the dashboard's `(a, b) => b[m] - a[m]`. */
  datatype Comparator = ByColumn(col: Column, dir: Direction) | Difference(m: NumColumn)

  /** The comparator's value on `(a, b)`: negative puts `a` first, positive puts `b` first. */
  function Cmp(c: Comparator, a: Stock, b: Stock): real {
    match c
    case ByColumn(col, dir) =>
      var ka, kb := KeyOf(a, col), KeyOf(b, col);
      if KeyLess(ka, kb) then (if dir == Ascending then -1.0 else 1.0)
      else if KeyLess(kb, ka) then (if dir == Ascending then 1.0 else -1.0)
      else 0.0
    case Difference(m) => NumOf(b, m) - NumOf(a, m)
  }

  /** The key the comparator looks at. */
  function SortKey(c: Comparator, a: Stock): Key {
    match c
    case ByColumn(col, _) => KeyOf(a, col)
    case Difference(m) => Number(NumOf(a, m))
  }

  /** The column comparator puts `a` first exactly when its key is smaller
      (ascending) or larger (descending). */
  lemma NegativeByColumn(col: Column, dir: Direction, a: Stock, b: Stock)
    ensures Cmp(ByColumn(col, dir), a, b) < 0.0 <==>
              if dir == Ascending then KeyLess(KeyOf(a, col), KeyOf(b, col)) else KeyLess(KeyOf(b, col), KeyOf(a, col))
  {
    var ka, kb := KeyOf(a, col), KeyOf(b, col);
    if KeyLess(ka, kb) {
      KeyLessAsymmetric(ka, kb);
    }
  }

  /** Swapping the arguments flips the comparator's sign. */
  lemma CmpAntisymmetric(c: Comparator, a: Stock, b: Stock)
    ensures Cmp(c, a, b) > 0.0 <==> Cmp(c, b, a) < 0.0
  {
    if c.ByColumn? {
      var ka, kb := KeyOf(a, c.col), KeyOf(b, c.col);
      if KeyLess(ka, kb) {
        KeyLessAsymmetric(ka, kb);
      }
      if KeyLess(kb, ka) {
        KeyLessAsymmetric(kb, ka);
      }
    }
  }

  /** Records with equal keys never precede each other. */
  lemma NegativeDistinctKeys(c: Comparator, a: Stock, b: Stock)
    requires Cmp(c, a, b) < 0.0
    ensures SortKey(c, a) != SortKey(c, b)
  {
    if c.ByColumn? {
      NegativeByColumn(c.col, c.dir, a, b);
      if c.dir == Ascending {
        KeyLessAsymmetric(KeyOf(a, c.col), KeyOf(b, c.col));
      } else {
        KeyLessAsymmetric(KeyOf(b, c.col), KeyOf(a, c.col));
      }
    }
  }

  /** "Need not come after" is transitive: the comparators are consistent. */
  lemma NonNegativeTransitive(c: Comparator, a: Stock, b: Stock, d: Stock)
    requires Cmp(c, a, b) >= 0.0 && Cmp(c, b, d) >= 0.0
    ensures Cmp(c, a, d) >= 0.0
  {
    if c.ByColumn? {
      var ka, kb, kd := KeyOf(a, c.col), KeyOf(b, c.col), KeyOf(d, c.col);
      NegativeByColumn(c.col, c.dir, a, b);
      NegativeByColumn(c.col, c.dir, b, d);
      NegativeByColumn(c.col, c.dir, a, d);
      if c.dir == Ascending && KeyLess(ka, kd) {
        KeyLessSplit(ka, kb, kd);
      } else if c.dir == Descending && KeyLess(kd, ka) {
        KeyLessSplit(kd, kb, ka);
      }
    }
  }

  /** The comparator as the function value passed to `sort`. */
  function Compare(c: Comparator): (Stock, Stock) -> real {
    (a, b) => Cmp(c, a, b)
  }

  /** The sort key as a function value. */
  function KeyFn(c: Comparator): Stock -> Key {
    a => SortKey(c, a)
  }

  /** Both comparators are consistent, and records with equal keys never precede each other,
      so the sort results are sorted, permuted and stable. */
  lemma CompareConsistent(c: Comparator)
    ensures Consistent(Compare(c))
    ensures KeyedBy(Compare(c), KeyFn(c))
  {
    var f := Compare(c);
    forall a, b
      ensures f(a, b) > 0.0 <==> f(b, a) < 0.0
    {
      CmpAntisymmetric(c, a, b);
    }
    forall a, b, d | !Precedes(f, a, b) && !Precedes(f, b, d)
      ensures !Precedes(f, a, d)
    {
      NonNegativeTransitive(c, a, b, d);
    }
    forall a, b | Precedes(f, a, b)
      ensures KeyFn(c)(a) != KeyFn(c)(b)
    {
      NegativeDistinctKeys(c, a, b);
    }
  }
}
