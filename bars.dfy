/** Daily price bars, the rows of the price table that the data step writes. */
module Bars {
  import opened Sorting

  /** A calendar day, as an ordinal; two days compare as their ISO `YYYY-MM-DD` strings do. */
  type Date = int

  /** A 0/1 flag column. */
  type Bit = x: int | 0 <= x <= 1

  datatype Bar = Bar(
    date: Date,
    ticker: string,
    open: real,
    high: real,
    low: real,
    close: real,
    adjClose: real,
    volume: int)

  /** The order `sort_values("date")` sorts by. */
  predicate ByDate(a: Bar, b: Bar)
  {
    a.date <= b.date
  }

  ghost predicate PositiveCloses(bars: seq<Bar>)
  {
    forall b :: b in bars ==> b.close > 0.0
  }

  function DateOf(b: Bar): Date
  {
    b.date
  }

  /** No two bars share a date. */
  ghost predicate UniqueDates(bars: seq<Bar>)
  {
    UniqueKeys(bars, DateOf)
  }

  lemma ByDateIsTotalPreorder()
    ensures TotalPreorder(ByDate)
  {
  }

  /** With unique dates, two bars may tie on the date order only when they are the same bar. */
  lemma UniqueDatesNoTies(bars: seq<Bar>, s: seq<Bar>)
    requires UniqueDates(bars)
    requires multiset(s) == multiset(bars)
    ensures NoTies(s, ByDate)
  {
    forall p, q | p in s && q in s && ByDate(p, q) && ByDate(q, p) ensures p == q {
      assert p in multiset(bars) && q in multiset(bars);
      var i :| 0 <= i < |bars| && bars[i] == p;
      var j :| 0 <= j < |bars| && bars[j] == q;
      assert i == j;
    }
  }

}
