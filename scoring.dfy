/**
  Reconciliation: strip the old scoring fields from the ledger, compute from
  the price table whether each bar's next close (same ticker) is higher,
  left-join that onto the ledger by (ticker, as-of date), mark each matched
  row correct or not, overwrite the ledger, and summarise the accuracy.
 */
module Scoring {
  import opened Wrappers
  import opened Sorting
  import opened Bars
  import opened Features
  import opened Prediction

  // ---------------------------------------------------------------------------
  // Sorting the price table by (ticker, date)

  /** Python's string order: lexicographic by code point. */
  predicate StrLeq(a: string, b: string)
    decreases |a|
  {
    |a| == 0 || (|b| > 0 && (a[0] < b[0] || (a[0] == b[0] && StrLeq(a[1..], b[1..]))))
  }

  lemma {:induction false} StrLeqTotal(a: string, b: string)
    ensures StrLeq(a, b) || StrLeq(b, a)
    decreases |a|
  {
    if |a| > 0 && |b| > 0 && a[0] == b[0] {
      StrLeqTotal(a[1..], b[1..]);
    }
  }

  lemma {:induction false} StrLeqTrans(a: string, b: string, c: string)
    requires StrLeq(a, b) && StrLeq(b, c)
    ensures StrLeq(a, c)
    decreases |a|
  {
    if |a| > 0 && a[0] == b[0] && b[0] == c[0] {
      StrLeqTrans(a[1..], b[1..], c[1..]);
    }
  }

  lemma {:induction false} StrLeqAntisym(a: string, b: string)
    requires StrLeq(a, b) && StrLeq(b, a)
    ensures a == b
    decreases |a|
  {
    if |a| > 0 {
      StrLeqAntisym(a[1..], b[1..]);
      assert a == [a[0]] + a[1..] && b == [b[0]] + b[1..];
    }
  }

  /** The order `sort_values(["ticker", "date"])` sorts by. */
  predicate ByTickerDate(a: Bar, b: Bar)
  {
    if a.ticker == b.ticker then a.date <= b.date else StrLeq(a.ticker, b.ticker)
  }

  lemma ByTickerDateTrans(a: Bar, b: Bar, c: Bar)
    requires ByTickerDate(a, b) && ByTickerDate(b, c)
    ensures ByTickerDate(a, c)
  {
    if a.ticker != b.ticker && b.ticker != c.ticker {
      StrLeqTrans(a.ticker, b.ticker, c.ticker);
      if a.ticker == c.ticker {
        StrLeqAntisym(a.ticker, b.ticker);
      }
    }
  }

  lemma ByTickerDateIsTotalPreorder()
    ensures TotalPreorder(ByTickerDate)
  {
    forall a, b ensures ByTickerDate(a, b) || ByTickerDate(b, a) {
      StrLeqTotal(a.ticker, b.ticker);
    }
    forall a, b, c | ByTickerDate(a, b) && ByTickerDate(b, c) ensures ByTickerDate(a, c) {
      ByTickerDateTrans(a, b, c);
    }
  }

  /** Bars of one ticker that the order puts in one direction with different tickers cannot straddle another ticker. */
  lemma SameTickerBetween(a: Bar, b: Bar, c: Bar)
    requires ByTickerDate(a, b) && ByTickerDate(b, c) && a.ticker == c.ticker
    ensures b.ticker == a.ticker
  {
    if b.ticker != a.ticker {
      StrLeqAntisym(a.ticker, b.ticker);
    }
  }

  function SortByTickerDate(prices: seq<Bar>): (s: seq<Bar>)
    ensures multiset(s) == multiset(prices)
    ensures |s| == |prices|
    ensures Sorted(s, ByTickerDate)
  {
    ByTickerDateIsTotalPreorder();
    SortBySorted(prices, ByTickerDate);
    assert |multiset(SortBy(prices, ByTickerDate))| == |multiset(prices)|;
    SortBy(prices, ByTickerDate)
  }

  /** The join key of a price row: (ticker, date). */
  function BarKey(b: Bar): (string, Date)
  {
    (b.ticker, b.date)
  }

  /** No two price rows share (ticker, date). */
  ghost predicate UniquePriceRows(prices: seq<Bar>)
  {
    UniqueKeys(prices, BarKey)
  }

  // ---------------------------------------------------------------------------
  // The realised outcome of each bar

  /**
    `groupby("ticker")["close"].shift(-1) > close` on the sorted table: the
    next row, if it belongs to the same ticker, has a strictly greater close.
    A missing next close compares false, so a ticker's last bar gets 0.
   */
  function NextCloseUp(s: seq<Bar>, i: nat): (b: Bit)
    requires i < |s|
    ensures i + 1 == |s| ==> b == 0
    ensures b == 1 ==> s[i + 1].ticker == s[i].ticker
    ensures i + 1 < |s| && s[i + 1].ticker == s[i].ticker ==> (b == 1 <==> s[i].close < s[i + 1].close)
  {
    if i + 1 < |s| && s[i + 1].ticker == s[i].ticker && s[i + 1].close > s[i].close then 1 else 0
  }

  /** A row of `prices_key`: (ticker, asof_date, actual_up_next_day). */
  datatype Outcome = Outcome(ticker: string, asofDate: Date, up: Bit)

  /** `prices_key`: one outcome per price row, each keyed by a (ticker, date) that occurs in the price table. */
  function OutcomeTable(prices: seq<Bar>): (table: seq<Outcome>)
    ensures |table| == |prices|
    ensures forall k :: 0 <= k < |table| ==> HasPriceRow(prices, table[k].ticker, table[k].asofDate)
  {
    var s := SortByTickerDate(prices);
    assert forall k :: 0 <= k < |s| ==> s[k] in multiset(prices);
    var table := seq(|s|, i requires 0 <= i < |s| => Outcome(s[i].ticker, s[i].date, NextCloseUp(s, i)));
    assert forall k :: 0 <= k < |table| ==> s[k] in prices && BarKey(s[k]) == (table[k].ticker, table[k].asofDate);
    table
  }

  /** `q` is the bar of `b`'s ticker that comes right after `b` in date order. */
  ghost predicate IsNextBar(prices: seq<Bar>, b: Bar, q: Bar)
  {
    q in prices && q.ticker == b.ticker && b.date < q.date &&
    forall r :: r in prices && r.ticker == b.ticker && b.date < r.date ==> q.date <= r.date
  }

  /** In the sorted table, a later date of the same ticker sits at a later position. */
  lemma LaterDateLaterIndex(s: seq<Bar>, i: nat, k: nat)
    requires Sorted(s, ByTickerDate)
    requires i < |s| && k < |s| && s[k].ticker == s[i].ticker && s[i].date < s[k].date
    ensures i < k
  {
  }

  /** An up outcome names the next bar of the ticker, whose close is greater. */
  lemma NextCloseUpGivesNextBar(prices: seq<Bar>, i: nat)
    requires UniquePriceRows(prices)
    requires i < |prices|
    requires NextCloseUp(SortByTickerDate(prices), i) == 1
    ensures var s := SortByTickerDate(prices);
      IsNextBar(prices, s[i], s[i + 1]) && s[i + 1].close > s[i].close
  {
    var s := SortByTickerDate(prices);
    UniqueKeysPermutation(prices, s, BarKey);
    var q := s[i + 1];
    assert q in multiset(prices);
    assert ByTickerDate(s[i], q);
    assert BarKey(s[i]) != BarKey(q);
    forall r | r in prices && r.ticker == s[i].ticker && s[i].date < r.date ensures q.date <= r.date {
      assert r in multiset(s);
      var k :| 0 <= k < |s| && s[k] == r;
      LaterDateLaterIndex(s, i, k);
      if k > i + 1 {
        assert ByTickerDate(q, s[k]);
      }
    }
  }

  /** Between two bars of one ticker the sorted table holds only that ticker. */
  lemma TickerBetween(s: seq<Bar>, i: nat, k: nat)
    requires Sorted(s, ByTickerDate)
    requires i < k < |s| && s[k].ticker == s[i].ticker
    ensures s[i + 1].ticker == s[i].ticker
  {
    if i + 1 < k {
      SameTickerBetween(s[i], s[i + 1], s[k]);
    }
  }

  /** Within one ticker the sorted table is in date order. */
  lemma SameTickerOrdered(s: seq<Bar>, a: nat, b: nat)
    requires Sorted(s, ByTickerDate)
    requires a <= b < |s| && s[a].ticker == s[b].ticker
    ensures s[a].date <= s[b].date
  {
    if a < b {
      assert ByTickerDate(s[a], s[b]);
    }
  }

  /** With unique keys, equal keys mean equal positions. */
  lemma SameKeySamePosition(s: seq<Bar>, a: nat, b: nat)
    requires UniqueKeys(s, BarKey)
    requires a < |s| && b < |s| && BarKey(s[a]) == BarKey(s[b])
    ensures a == b
  {
  }

  /** The next bar of the ticker sits right after the bar in the sorted table. */
  lemma NextBarIsNextRow(prices: seq<Bar>, i: nat, q: Bar)
    requires UniquePriceRows(prices)
    requires i < |prices|
    requires IsNextBar(prices, SortByTickerDate(prices)[i], q)
    ensures var s := SortByTickerDate(prices);
      i + 1 < |s| && s[i + 1] == q
  {
    var s := SortByTickerDate(prices);
    UniqueKeysPermutation(prices, s, BarKey);
    NextRowIn(prices, s, i, q);
  }

  /** `NextBarIsNextRow` for any sorted reordering `s` of the price rows. */
  lemma NextRowIn(prices: seq<Bar>, s: seq<Bar>, i: nat, q: Bar)
    requires multiset(s) == multiset(prices)
    requires Sorted(s, ByTickerDate) && UniqueKeys(s, BarKey)
    requires i < |s| && IsNextBar(prices, s[i], q)
    ensures i + 1 < |s| && s[i + 1] == q
  {
    assert q in multiset(s);
    var k :| 0 <= k < |s| && s[k] == q;
    LaterDateLaterIndex(s, i, k);
    RowAfter(s, i, k);
    assert s[i + 1] in multiset(prices);
    NextBarFirst(prices, s[i], q, s[i + 1]);
    SameKeySamePosition(s, i + 1, k);
  }

  /** Below a later row `k` of the same ticker, the next row is of that ticker, later, and no later than `k`. */
  lemma RowAfter(s: seq<Bar>, i: nat, k: nat)
    requires Sorted(s, ByTickerDate) && UniqueKeys(s, BarKey)
    requires i < k < |s| && s[k].ticker == s[i].ticker
    ensures s[i + 1].ticker == s[i].ticker && s[i].date < s[i + 1].date <= s[k].date
  {
    TickerBetween(s, i, k);
    SameTickerOrdered(s, i, i + 1);
    SameTickerOrdered(s, i + 1, k);
    assert BarKey(s[i]) != BarKey(s[i + 1]);
  }

  /** The next bar comes no later than any later bar of the same ticker. */
  lemma NextBarFirst(prices: seq<Bar>, b: Bar, q: Bar, r: Bar)
    requires IsNextBar(prices, b, q)
    requires r in prices && r.ticker == b.ticker && b.date < r.date
    ensures q.date <= r.date
  {
  }

  /**
    The per-bar outcome means what the source intends: 1 exactly when the
    next bar of the same ticker in date order has a strictly greater close.
    Bars of other tickers never take part.
   */
  lemma NextCloseUpMeansNextBar(prices: seq<Bar>, i: nat)
    requires UniquePriceRows(prices)
    requires i < |prices|
    ensures var s := SortByTickerDate(prices);
      NextCloseUp(s, i) == 1 <==> exists q :: IsNextBar(prices, s[i], q) && q.close > s[i].close
  {
    var s := SortByTickerDate(prices);
    if NextCloseUp(s, i) == 1 {
      NextCloseUpGivesNextBar(prices, i);
    }
    if q :| IsNextBar(prices, s[i], q) && q.close > s[i].close {
      NextBarIsNextRow(prices, i, q);
    }
  }

  // ---------------------------------------------------------------------------
  // The join

  /** The outcome values whose key is (ticker, date), in table order. */
  function Lookups(table: seq<Outcome>, ticker: string, date: Date): (ups: seq<Bit>)
    ensures |ups| <= |table|
  {
    if table == [] then []
    else
      var last := table[|table| - 1];
      Lookups(table[..|table| - 1], ticker, date) + (if (last.ticker, last.asofDate) == (ticker, date) then [last.up] else [])
  }

  /** Drop the two scoring fields (they become unknown). */
  function Strip(r: Record): Record
  {
    r.(actualUp := None, isCorrect := None)
  }

  /** Dropping the scoring columns: both become unknown and every other field is kept. */
  function StripScoring(rows: seq<Record>): (stripped: seq<Record>)
    ensures |stripped| == |rows|
    ensures forall i :: 0 <= i < |rows| ==> stripped[i] == Strip(rows[i])
    ensures forall i :: 0 <= i < |rows| ==>
      stripped[i].actualUp.None? && stripped[i].isCorrect.None? &&
      stripped[i].(actualUp := rows[i].actualUp, isCorrect := rows[i].isCorrect) == rows[i]
  {
    seq(|rows|, i requires 0 <= i < |rows| => Strip(rows[i]))
  }

  /** The rows a left merge makes of one ledger row: one per match, or the row itself with no outcome. */
  function MergeRow(p: Record, table: seq<Outcome>): (m: seq<Record>)
    ensures |m| >= 1
    ensures forall j :: 0 <= j < |m| ==> m[j].(actualUp := p.actualUp) == p
  {
    var ups := Lookups(table, p.ticker, p.asofDate);
    if ups == [] then [p.(actualUp := None)]
    else seq(|ups|, j requires 0 <= j < |ups| => p.(actualUp := Some(ups[j])))
  }

  /** `preds.merge(prices_key, on=["ticker", "asof_date"], how="left")`: ledger order, every ledger row kept. */
  function LeftMerge(rows: seq<Record>, table: seq<Outcome>): (merged: seq<Record>)
    ensures |merged| >= |rows|
  {
    if rows == [] then []
    else LeftMerge(rows[..|rows| - 1], table) + MergeRow(rows[|rows| - 1], table)
  }

  /** `is_correct`: unknown without an outcome, else 1 exactly when the prediction matches it. */
  function MarkCorrect(r: Record): (marked: Record)
    ensures marked.isCorrect.Some? <==> r.actualUp.Some?
    ensures marked.isCorrect == Some(1) <==> r.actualUp == Some(r.predUp)
    ensures marked.(isCorrect := r.isCorrect) == r
  {
    r.(isCorrect := if r.actualUp.Some? then Some(if r.predUp == r.actualUp.value then 1 else 0) else None)
  }

  function MarkAll(rows: seq<Record>): (marked: seq<Record>)
    ensures |marked| == |rows|
    ensures forall i :: 0 <= i < |rows| ==> marked[i] == MarkCorrect(rows[i])
  {
    seq(|rows|, i requires 0 <= i < |rows| => MarkCorrect(rows[i]))
  }

  /** The reconciled ledger. */
  function Reconcile(rows: seq<Record>, prices: seq<Bar>): (r: seq<Record>)
    ensures |r| >= |rows|
  {
    MarkAll(LeftMerge(StripScoring(rows), OutcomeTable(prices)))
  }

  // ---------------------------------------------------------------------------
  // Properties of the join

  /** Some price row has key (ticker, date). */
  ghost predicate HasPriceRow(prices: seq<Bar>, ticker: string, date: Date)
  {
    exists b :: b in prices && BarKey(b) == (ticker, date)
  }

  lemma OutcomeTableAt(prices: seq<Bar>, i: nat)
    requires i < |prices|
    ensures var s := SortByTickerDate(prices);
      OutcomeTable(prices)[i] == Outcome(s[i].ticker, s[i].date, NextCloseUp(s, i))
  {
  }

  /** The outcome table has a row for (ticker, date) exactly when the price table has one. */
  lemma {:induction false} LookupsNonEmpty(prices: seq<Bar>, ticker: string, date: Date)
    ensures Lookups(OutcomeTable(prices), ticker, date) != [] <==> HasPriceRow(prices, ticker, date)
  {
    var s, table := SortByTickerDate(prices), OutcomeTable(prices);
    LookupsFound(table, ticker, date);
    if HasPriceRow(prices, ticker, date) {
      var b :| b in prices && BarKey(b) == (ticker, date);
      assert b in multiset(s);
      var k :| 0 <= k < |s| && s[k] == b;
      OutcomeTableAt(prices, k);
      assert (table[k].ticker, table[k].asofDate) == (ticker, date);
    }
    if Lookups(table, ticker, date) != [] {
      var k :| 0 <= k < |table| && (table[k].ticker, table[k].asofDate) == (ticker, date);
      OutcomeTableAt(prices, k);
      assert s[k] in multiset(prices);
      assert BarKey(s[k]) == (ticker, date);
    }
  }

  /** `Lookups` is non-empty exactly when some table row has the key. */
  lemma {:induction false} LookupsFound(table: seq<Outcome>, ticker: string, date: Date)
    ensures Lookups(table, ticker, date) != [] <==>
      exists k :: 0 <= k < |table| && (table[k].ticker, table[k].asofDate) == (ticker, date)
  {
    if table != [] {
      var init := table[..|table| - 1];
      LookupsFound(init, ticker, date);
      if exists k :: 0 <= k < |init| && (init[k].ticker, init[k].asofDate) == (ticker, date) {
        var k :| 0 <= k < |init| && (init[k].ticker, init[k].asofDate) == (ticker, date);
        assert table[k] == init[k];
      }
      if k :| 0 <= k < |table| - 1 && (table[k].ticker, table[k].asofDate) == (ticker, date) {
        assert init[k] == table[k];
      }
    }
  }

  /** Every value `Lookups` returns is the outcome of some table row with the key. */
  lemma {:induction false} LookupsFrom(table: seq<Outcome>, ticker: string, date: Date, j: nat)
    requires j < |Lookups(table, ticker, date)|
    ensures exists k :: 0 <= k < |table| && table[k] == Outcome(ticker, date, Lookups(table, ticker, date)[j])
  {
    var init := table[..|table| - 1];
    var last := table[|table| - 1];
    if j < |Lookups(init, ticker, date)| {
      LookupsFrom(init, ticker, date, j);
      var k :| 0 <= k < |init| && init[k] == Outcome(ticker, date, Lookups(init, ticker, date)[j]);
      assert table[k] == init[k];
    } else {
      assert table[|table| - 1] == Outcome(ticker, date, Lookups(table, ticker, date)[j]);
    }
  }

  /** With unique keys, a table row with the key is the only match. */
  lemma {:induction false} LookupsUnique(table: seq<Outcome>, k: nat)
    requires k < |table|
    requires UniqueOutcomeKeys(table)
    ensures Lookups(table, table[k].ticker, table[k].asofDate) == [table[k].up]
  {
    var init := table[..|table| - 1];
    var key := (table[k].ticker, table[k].asofDate);
    if k == |table| - 1 {
      LookupsFound(init, table[k].ticker, table[k].asofDate);
    } else {
      LookupsUnique(init, k);
      assert init[k] == table[k];
      assert (table[k].ticker, table[k].asofDate) != (table[|table| - 1].ticker, table[|table| - 1].asofDate);
    }
  }

  /** No two outcome rows share (ticker, as-of date). */
  ghost predicate UniqueOutcomeKeys(table: seq<Outcome>)
  {
    forall i, j :: 0 <= i < j < |table| ==> (table[i].ticker, table[i].asofDate) != (table[j].ticker, table[j].asofDate)
  }

  /** Unique price rows give an outcome table with unique keys. */
  lemma OutcomeTableUnique(prices: seq<Bar>)
    requires UniquePriceRows(prices)
    ensures UniqueOutcomeKeys(OutcomeTable(prices))
  {
    var s := SortByTickerDate(prices);
    UniqueKeysPermutation(prices, s, BarKey);
    forall i, j | 0 <= i < j < |s| ensures BarKey(s[i]) != BarKey(s[j]) {
    }
  }

  /** With unique price rows the merge keeps one row per ledger row, in order. */
  lemma {:induction false} LeftMergeOneToOne(rows: seq<Record>, table: seq<Outcome>)
    requires UniqueOutcomeKeys(table)
    ensures |LeftMerge(rows, table)| == |rows|
    ensures forall i :: 0 <= i < |rows| ==>
      |MergeRow(rows[i], table)| == 1 && LeftMerge(rows, table)[i] == MergeRow(rows[i], table)[0]
  {
    if rows != [] {
      var init, last := rows[..|rows| - 1], rows[|rows| - 1];
      LeftMergeOneToOne(init, table);
      MergeRowSingle(last, table);
      var a, b := LeftMerge(init, table), MergeRow(last, table);
      assert LeftMerge(rows, table) == a + b;
      assert |b| == 1;
      forall i | 0 <= i < |rows|
        ensures |MergeRow(rows[i], table)| == 1 && (a + b)[i] == MergeRow(rows[i], table)[0]
      {
        if i < |init| {
          assert rows[i] == init[i];
          assert (a + b)[i] == a[i];
        } else {
          assert rows[i] == last;
          assert (a + b)[i] == b[0];
        }
      }
    }
  }

  /** With unique keys in the outcome table a ledger row merges into exactly one row. */
  lemma MergeRowSingle(p: Record, table: seq<Outcome>)
    requires UniqueOutcomeKeys(table)
    ensures |MergeRow(p, table)| == 1
  {
    var ups := Lookups(table, p.ticker, p.asofDate);
    if ups != [] {
      LookupsFound(table, p.ticker, p.asofDate);
      var k :| 0 <= k < |table| && (table[k].ticker, table[k].asofDate) == (p.ticker, p.asofDate);
      LookupsUnique(table, k);
    }
  }

  /** The rows merged from `p` keep its key and carry an outcome exactly when the key matches. */
  lemma MergeRowOutcomes(p: Record, table: seq<Outcome>, j: nat)
    requires j < |MergeRow(p, table)|
    ensures MergeRow(p, table)[j].ticker == p.ticker && MergeRow(p, table)[j].asofDate == p.asofDate
    ensures MergeRow(p, table)[j].actualUp.None? <==> Lookups(table, p.ticker, p.asofDate) == []
    ensures MergeRow(p, table)[j].actualUp.Some? ==> MergeRow(p, table)[j].actualUp.value in Lookups(table, p.ticker, p.asofDate)
  {
  }

  /** Row `x` carries an outcome exactly when the table has its key, and then one of the table's values for it. */
  ghost predicate OutcomeFromTable(x: Record, table: seq<Outcome>)
  {
    var ups := Lookups(table, x.ticker, x.asofDate);
    (x.actualUp.None? <==> ups == []) && (x.actualUp.Some? ==> x.actualUp.value in ups)
  }

  /**
    Without any assumption on the price table: a merged row has an outcome
    exactly when the outcome table has a row for its key, and that outcome is
    one of the outcome-table values for the key.
   */
  lemma {:induction false} LeftMergeOutcomes(rows: seq<Record>, table: seq<Outcome>)
    ensures forall k :: 0 <= k < |LeftMerge(rows, table)| ==> OutcomeFromTable(LeftMerge(rows, table)[k], table)
  {
    if rows != [] {
      var init, last := rows[..|rows| - 1], rows[|rows| - 1];
      LeftMergeOutcomes(init, table);
      var a, b := LeftMerge(init, table), MergeRow(last, table);
      assert LeftMerge(rows, table) == a + b;
      forall k | 0 <= k < |a + b| ensures OutcomeFromTable((a + b)[k], table) {
        if k < |a| {
          assert (a + b)[k] == a[k];
        } else {
          MergeRowOutcomes(last, table, k - |a|);
          assert (a + b)[k] == b[k - |a|];
        }
      }
    }
  }

  // ---------------------------------------------------------------------------
  // Properties of reconciliation

  /** Re-scoring ignores the old scoring fields: ledgers that differ only there reconcile alike. */
  lemma ReconcileIgnoresOldScores(a: seq<Record>, b: seq<Record>, prices: seq<Bar>)
    requires |a| == |b|
    requires forall i :: 0 <= i < |a| ==> Strip(a[i]) == Strip(b[i])
    ensures Reconcile(a, prices) == Reconcile(b, prices)
  {
    assert StripScoring(a) == StripScoring(b);
  }

  /**
    With unique price rows the reconciled ledger has the same rows in the
    same order, and only the two scoring fields may differ.
   */
  lemma ReconcileKeepsRows(rows: seq<Record>, prices: seq<Bar>)
    requires UniquePriceRows(prices)
    ensures var r := Reconcile(rows, prices);
      |r| == |rows| && forall i :: 0 <= i < |rows| ==> Strip(r[i]) == Strip(rows[i])
  {
    var stripped := StripScoring(rows);
    var table := OutcomeTable(prices);
    OutcomeTableUnique(prices);
    LeftMergeOneToOne(stripped, table);
    var merged := LeftMerge(stripped, table);
    forall i | 0 <= i < |rows| ensures Strip(MarkCorrect(merged[i])) == Strip(rows[i]) {
      var ups := Lookups(table, stripped[i].ticker, stripped[i].asofDate);
      if ups != [] {
        assert MergeRow(stripped[i], table)[0] == stripped[i].(actualUp := Some(ups[0]));
      }
    }
  }

  /**
    Scoring fields of every reconciled row: unknown exactly when no price row
    has its (ticker, as-of date); `is_correct` known exactly when
    `actual_up_next_day` is, and 1 exactly when the prediction equals it.
   */
  lemma ReconcileScoringFields(rows: seq<Record>, prices: seq<Bar>)
    ensures var r := Reconcile(rows, prices);
      forall k :: 0 <= k < |r| ==>
        (r[k].actualUp.None? <==> !HasPriceRow(prices, r[k].ticker, r[k].asofDate)) &&
        (r[k].isCorrect.None? <==> r[k].actualUp.None?) &&
        (r[k].isCorrect == Some(1) <==> r[k].actualUp == Some(r[k].predUp))
  {
    var table := OutcomeTable(prices);
    var merged := LeftMerge(StripScoring(rows), table);
    LeftMergeOutcomes(StripScoring(rows), table);
    forall k | 0 <= k < |merged|
      ensures (merged[k].actualUp.None? <==> !HasPriceRow(prices, merged[k].ticker, merged[k].asofDate))
    {
      LookupsNonEmpty(prices, merged[k].ticker, merged[k].asofDate);
      assert OutcomeFromTable(merged[k], table);
    }
  }

  /**
    A ledger row whose key matches price bar `b` gets the outcome of `b`: 1
    exactly when the next bar of `b`'s ticker has a strictly greater close,
    and `is_correct` records whether the prediction equals it.
   */
  lemma ReconcileMatched(rows: seq<Record>, prices: seq<Bar>, i: nat, b: Bar)
    requires UniquePriceRows(prices)
    requires i < |rows| && b in prices && BarKey(b) == KeyOf(rows[i])
    ensures var r := Reconcile(rows, prices);
      |r| == |rows| &&
      r[i].actualUp.Some? &&
      (r[i].actualUp.value == 1 <==> exists q :: IsNextBar(prices, b, q) && q.close > b.close) &&
      r[i].isCorrect == Some(if rows[i].predUp == r[i].actualUp.value then 1 else 0)
  {
    var s, table := SortByTickerDate(prices), OutcomeTable(prices);
    var stripped := StripScoring(rows);
    OutcomeTableUnique(prices);
    LeftMergeOneToOne(stripped, table);
    assert b in multiset(s);
    var k :| 0 <= k < |s| && s[k] == b;
    OutcomeTableAt(prices, k);
    OutcomeTableUnique(prices);
    LookupsUnique(table, k);
    assert Lookups(table, stripped[i].ticker, stripped[i].asofDate) == [NextCloseUp(s, k)];
    NextCloseUpMeansNextBar(prices, k);
  }

  /**
    As the code behaves: the last bar of a ticker has no next close, the
    comparison is false, and a ledger row for that date is scored with
    `actual_up_next_day = 0` rather than left unknown.
   */
  lemma ReconcileLastBar(rows: seq<Record>, prices: seq<Bar>, i: nat, b: Bar)
    requires UniquePriceRows(prices)
    requires i < |rows| && b in prices && BarKey(b) == KeyOf(rows[i])
    requires forall q :: q in prices && q.ticker == b.ticker ==> q.date <= b.date
    ensures var r := Reconcile(rows, prices);
      |r| == |rows| && r[i].actualUp == Some(0) && r[i].isCorrect == Some(if rows[i].predUp == 0 then 1 else 0)
  {
    ReconcileMatched(rows, prices, i, b);
  }

  /** Scoring an already scored ledger against the same prices changes nothing. */
  lemma ReconcileIdempotent(rows: seq<Record>, prices: seq<Bar>)
    requires UniquePriceRows(prices)
    ensures Reconcile(Reconcile(rows, prices), prices) == Reconcile(rows, prices)
  {
    ReconcileKeepsRows(rows, prices);
    ReconcileIgnoresOldScores(Reconcile(rows, prices), rows, prices);
  }

  /** With unique price rows, scoring keeps the ledger's one row per (ticker, as-of date). */
  lemma ReconcileKeepsUnique(rows: seq<Record>, prices: seq<Bar>)
    requires UniquePriceRows(prices) && UniqueRows(rows)
    ensures UniqueRows(Reconcile(rows, prices))
  {
    var r := Reconcile(rows, prices);
    ReconcileKeepsRows(rows, prices);
    forall i, j | 0 <= i < j < |r| ensures KeyOf(r[i]) != KeyOf(r[j]) {
      assert KeyOf(r[i]) == KeyOf(Strip(r[i])) == KeyOf(rows[i]);
      assert KeyOf(r[j]) == KeyOf(Strip(r[j])) == KeyOf(rows[j]);
    }
  }

  /**
    Without unique price rows the left merge multiplies ledger rows: a price
    table holding the same bar twice turns the one matching ledger row into
    two rows with the same key, and the overwrite keeps both.
   */
  lemma DuplicatePricesDuplicateRows(p: Record, b: Bar)
    requires BarKey(b) == KeyOf(p)
    ensures |Reconcile([p], [b, b])| == 2
    ensures !UniqueRows(Reconcile([p], [b, b]))
  {
    var s, table := SortByTickerDate([b, b]), OutcomeTable([b, b]);
    assert s[0] in multiset([b, b]) && s[1] in multiset([b, b]);
    assert s == [b, b];
    var o := Outcome(b.ticker, b.date, table[0].up);
    assert table[..1] == [o];
    assert Lookups(table[..1][..0], p.ticker, p.asofDate) == [];
    assert Lookups(table[..1], p.ticker, p.asofDate) == [o.up];
    var ups := Lookups(table, p.ticker, p.asofDate);
    assert |ups| == 2;
    var stripped := StripScoring([p]);
    assert LeftMerge(stripped, table) == LeftMerge([], table) + MergeRow(stripped[0], table);
    var r := Reconcile([p], [b, b]);
    assert KeyOf(r[0]) == KeyOf(r[1]);
  }

  /**
    A prediction recorded from the newest bar of a one-ticker price table and
    then scored against that same table is scored at once: its as-of date is
    the ticker's last bar, which has no next close, so the outcome is 0 and
    `is_correct` is 1 exactly when the prediction was down.
   */
  lemma ScoredOnItsOwnDay(rows: seq<Record>, bars: seq<Bar>, ticker: string, prob: real, runTime: string)
    requires PositiveCloses(bars) && UniquePriceRows(bars)
    requires forall b :: b in bars ==> b.ticker == ticker
    ensures var latest := LatestRow(AddFeatures(bars));
      latest.Some? && !HasKey(rows, ticker, latest.value.bar.date) ==>
        var r := Reconcile(AfterAppend(rows, NewRecord(runTime, ticker, latest.value.bar.date, prob)), bars);
        |r| == |rows| + 1 && r[|rows|].actualUp == Some(0) &&
        r[|rows|].isCorrect == Some(if prob < 0.5 then 1 else 0)
  {
    var latest := LatestRow(AddFeatures(bars));
    LatestIsNewest(bars);
    if latest.Some? && !HasKey(rows, ticker, latest.value.bar.date) {
      var b := latest.value.bar;
      var rec := NewRecord(runTime, ticker, b.date, prob);
      var after := AfterAppend(rows, rec);
      assert after == rows + [rec] && after[|rows|] == rec;
      ReconcileLastBar(after, bars, |rows|, b);
    }
  }

  // ---------------------------------------------------------------------------
  // The summary

  datatype Summary = NoneScored | Scored(count: nat, correct: nat, accuracy: real)

  /** The number of rows with a known `is_correct`. */
  function CountScored(rows: seq<Record>): (n: nat)
    ensures n <= |rows|
    ensures n == 0 <==> forall i :: 0 <= i < |rows| ==> rows[i].isCorrect.None?
  {
    if rows == [] then 0
    else
      assert forall i :: 0 <= i < |rows| - 1 ==> rows[..|rows| - 1][i] == rows[i];
      CountScored(rows[..|rows| - 1]) + (if rows[|rows| - 1].isCorrect.Some? then 1 else 0)
  }

  /** The sum of the known `is_correct` values. */
  function CountCorrect(rows: seq<Record>): (n: nat)
    ensures n <= CountScored(rows)
  {
    if rows == [] then 0
    else CountCorrect(rows[..|rows| - 1]) + (if rows[|rows| - 1].isCorrect == Some(1) then 1 else 0)
  }

  /** The summary of the scored rows: none, or their count and mean `is_correct`. */
  function SummaryOf(rows: seq<Record>): (s: Summary)
    ensures s.Scored? ==> s.count > 0 && s.correct <= s.count && 0.0 <= s.accuracy <= 1.0
  {
    var n := CountScored(rows);
    if n == 0 then NoneScored
    else
      DivideBounds(CountCorrect(rows) as real, n as real, 0.0, 1.0);
      Scored(n, CountCorrect(rows), CountCorrect(rows) as real / n as real)
  }

  /** A row with unknown `is_correct`, wherever it stands, is left out of the summary. */
  lemma {:induction false} SummaryIgnoresUnknown(a: seq<Record>, x: Record, b: seq<Record>)
    requires x.isCorrect.None?
    ensures CountScored(a + [x] + b) == CountScored(a + b)
    ensures CountCorrect(a + [x] + b) == CountCorrect(a + b)
    ensures SummaryOf(a + [x] + b) == SummaryOf(a + b)
  {
    if b == [] {
      assert a + [x] + b == a + [x] && (a + [x])[..|a|] == a && a + b == a;
    } else {
      var init := b[..|b| - 1];
      SummaryIgnoresUnknown(a, x, init);
      assert (a + [x] + b)[..|a + [x] + b| - 1] == a + [x] + init;
      assert (a + b)[..|a + b| - 1] == a + init;
    }
  }

  /** The summary step: count the scored rows and the correct ones. */
  method Summarize(rows: seq<Record>) returns (summary: Summary)
    ensures summary == SummaryOf(rows)
  {
    var scored, correct := 0, 0;
    var i := 0;
    while i < |rows|
      invariant 0 <= i <= |rows|
      invariant scored == CountScored(rows[..i]) && correct == CountCorrect(rows[..i])
    {
      assert rows[..i + 1][..i] == rows[..i];
      if rows[i].isCorrect.Some? {
        scored := scored + 1;
        if rows[i].isCorrect == Some(1) {
          correct := correct + 1;
        }
      }
      i := i + 1;
    }
    assert rows[..i] == rows;
    if scored == 0 {
      summary := NoneScored;
    } else {
      summary := Scored(scored, correct, correct as real / scored as real);
    }
  }

  // ---------------------------------------------------------------------------
  // A scoring run

  datatype ScoreOutcome = LedgerNotFound | Done(summary: Summary)

  /**
    One run: a missing ledger is an error; otherwise the ledger is replaced
    by its reconciliation against `prices` and the summary is reported.
   */
  method ScoreLedger(ledger: LedgerFile, prices: seq<Bar>) returns (outcome: ScoreOutcome)
    requires ledger.Valid()
    modifies ledger
    ensures ledger.Valid()
    ensures !old(ledger.fileExists) ==> outcome == LedgerNotFound && unchanged(ledger)
    ensures old(ledger.fileExists) ==>
      ledger.fileExists &&
      ledger.rows == Reconcile(old(ledger.rows), prices) &&
      outcome == Done(SummaryOf(ledger.rows))
  {
    if !ledger.fileExists {
      return LedgerNotFound;
    }
    var scored := Reconcile(ledger.rows, prices);
    ledger.Overwrite(scored);
    var summary := Summarize(scored);
    outcome := Done(summary);
  }

}
