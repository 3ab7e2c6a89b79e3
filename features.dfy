/**
  Feature and label derivation (`add_features`): the bars are sorted by date,
  each row gets a one-day return, 5- and 20-bar trailing means and their gaps,
  and the next-day label; rows with an undefined column are dropped.
  Everything here is a pure function of its input, so the caller's table is
  never changed.
 */
module Features {
  import opened Wrappers
  import opened Sorting
  import opened Bars

  /** The columns the classifier is fitted on and applied to, in this order. */
  const FeatureCols: seq<string> := ["ret_1d", "ma5_gap", "ma20_gap"]

  const ShortWindow: nat := 5
  const LongWindow: nat := 20

  /** An input bar with the derived columns appended. */
  datatype FeatureRow = FeatureRow(
    bar: Bar,
    ret1d: real,
    ma5: real,
    ma20: real,
    ma5Gap: real,
    ma20Gap: real,
    targetUp: Bit)

  /** The value of the numeric column `name` of a row, by its column name; `None` for any other name. */
  function Column(row: FeatureRow, name: string): Option<real>
  {
    if name == "close" then Some(row.bar.close)
    else if name == "ret_1d" then Some(row.ret1d)
    else if name == "ma_5" then Some(row.ma5)
    else if name == "ma_20" then Some(row.ma20)
    else if name == "ma5_gap" then Some(row.ma5Gap)
    else if name == "ma20_gap" then Some(row.ma20Gap)
    else None
  }

  /** The classifier input of a row: entry k is the row's `FeatureCols[k]` column. */
  function FeatureVector(row: FeatureRow): (v: seq<real>)
    ensures |v| == |FeatureCols|
    ensures forall k :: 0 <= k < |v| ==> Column(row, FeatureCols[k]) == Some(v[k])
  {
    [row.ret1d, row.ma5Gap, row.ma20Gap]
  }

  /** Every `FeatureCols` column of the row has a value. */
  predicate FeaturesDefined(row: FeatureRow)
  {
    forall k :: 0 <= k < |FeatureCols| ==> Column(row, FeatureCols[k]).Some?
  }

  /** `dropna(subset=FEATURE_COLS)`: keep the rows whose feature columns all have values, in order. */
  function DropMissingFeatures(table: seq<FeatureRow>): (r: seq<FeatureRow>)
    ensures |r| <= |table|
    ensures forall i :: 0 <= i < |r| ==> r[i] in table && FeaturesDefined(r[i])
  {
    if table == [] then []
    else (if FeaturesDefined(table[0]) then [table[0]] else []) + DropMissingFeatures(table[1..])
  }

  /**
    Dropping rows with a missing feature column removes nothing. This holds
    for every table of `FeatureRow`s, because a `FeatureRow` carries each
    feature as a plain value: undefined rows were already removed by the
    `dropna` inside `AddFeatures`, which is what makes the later
    `dropna(subset=FEATURE_COLS)` a no-op.
   */
  lemma {:induction false} DropMissingFeaturesKeepsAll(table: seq<FeatureRow>)
    ensures DropMissingFeatures(table) == table
  {
    if table != [] {
      var v := FeatureVector(table[0]);
      assert FeaturesDefined(table[0]) by {
        forall k | 0 <= k < |FeatureCols| ensures Column(table[0], FeatureCols[k]).Some? {
          assert Column(table[0], FeatureCols[k]) == Some(v[k]);
        }
      }
      DropMissingFeaturesKeepsAll(table[1..]);
      assert [table[0]] + table[1..] == table;
    }
  }

  ghost predicate Positive(c: seq<real>)
  {
    forall i :: 0 <= i < |c| ==> c[i] > 0.0
  }

  /** The bars in ascending date order, a rearrangement of the input. */
  function SortByDate(bars: seq<Bar>): (s: seq<Bar>)
    ensures multiset(s) == multiset(bars)
    ensures |s| == |bars|
    ensures Sorted(s, ByDate)
    ensures PositiveCloses(bars) ==> PositiveCloses(s)
  {
    ByDateIsTotalPreorder();
    assert |multiset(SortBy(bars, ByDate))| == |multiset(bars)|;
    assert forall b :: b in SortBy(bars, ByDate) ==> b in multiset(bars);
    SortBySorted(bars, ByDate);
    SortBy(bars, ByDate)
  }

  /** The close column. */
  function Closes(s: seq<Bar>): (c: seq<real>)
    ensures |c| == |s|
    ensures forall i :: 0 <= i < |s| ==> c[i] == s[i].close
    ensures PositiveCloses(s) ==> Positive(c)
  {
    seq(|s|, i requires 0 <= i < |s| => s[i].close)
  }

  function Sum(xs: seq<real>): (r: real)
    ensures xs != [] && Positive(xs) ==> r > 0.0
  {
    if xs == [] then 0.0 else Sum(xs[..|xs| - 1]) + xs[|xs| - 1]
  }

  function Mean(xs: seq<real>): real
    requires xs != []
  {
    Sum(xs) / (|xs| as real)
  }

  /** `close.pct_change()` at row `t`: undefined on the first row; applying the return to the previous close gives back the close. */
  function PctChange(c: seq<real>, t: nat): (r: Option<real>)
    requires t < |c| && Positive(c)
    ensures r.Some? <==> t >= 1
    ensures r.Some? ==> c[t - 1] * (1.0 + r.value) == c[t]
  {
    if t == 0 then None else Some(c[t] / c[t - 1] - 1.0)
  }

  /** `close.rolling(k).mean()` at row `t`: the mean of the `k` closes ending at `t`, undefined before `k` of them exist. */
  function RollingMean(c: seq<real>, t: nat, k: nat): (m: Option<real>)
    requires t < |c| && Positive(c) && 1 <= k
    ensures m.Some? <==> t + 1 >= k
    ensures m.Some? ==> m.value > 0.0 && m.value * (k as real) == Sum(c[t + 1 - k..t + 1])
  {
    if t + 1 < k then None
    else
      assert Positive(c[t + 1 - k..t + 1]);
      Some(Mean(c[t + 1 - k..t + 1]))
  }

  /** `close / ma_k - 1` at row `t`: defined with the mean, and the mean scaled by one plus the gap is the close. */
  function Gap(c: seq<real>, t: nat, k: nat): (g: Option<real>)
    requires t < |c| && Positive(c) && 1 <= k
    ensures g.Some? <==> RollingMean(c, t, k).Some?
    ensures g.Some? ==> RollingMean(c, t, k).value * (1.0 + g.value) == c[t]
  {
    match RollingMean(c, t, k)
    case None => None
    case Some(m) => Some(c[t] / m - 1.0)
  }

  /** `(close.shift(-1) > close).astype(int)`: a missing next close compares false, so the last row gets 0. */
  function TargetUp(c: seq<real>, t: nat): (b: Bit)
    requires t < |c|
    ensures t + 1 == |c| ==> b == 0
    ensures t + 1 < |c| ==> (b == 1 <==> c[t] < c[t + 1])
  {
    if t + 1 < |c| && c[t + 1] > c[t] then 1 else 0
  }

  /**
    Row `t` of the sorted table with all derived columns; `None` when `dropna`
    would drop it, which is exactly before the 20-bar window is full.
   */
  function RowAt(s: seq<Bar>, t: nat): (r: Option<FeatureRow>)
    requires t < |s| && PositiveCloses(s)
    ensures r.Some? <==> t >= LongWindow - 1
    ensures r.Some? ==> r.value.bar == s[t] && r.value.ma5 > 0.0 && r.value.ma20 > 0.0
  {
    var c := Closes(s);
    var ret, ma5, ma20 := PctChange(c, t), RollingMean(c, t, ShortWindow), RollingMean(c, t, LongWindow);
    var gap5, gap20 := Gap(c, t, ShortWindow), Gap(c, t, LongWindow);
    if ret.Some? && ma5.Some? && ma20.Some? && gap5.Some? && gap20.Some? then
      Some(FeatureRow(s[t], ret.value, ma5.value, ma20.value, gap5.value, gap20.value, TargetUp(c, t)))
    else
      None
  }

  /** Every row of the sorted table, before `dropna`. */
  function FeatureTable(s: seq<Bar>): (rows: seq<Option<FeatureRow>>)
    requires PositiveCloses(s)
    ensures |rows| == |s|
    ensures forall t :: 0 <= t < |s| ==> rows[t] == RowAt(s, t)
  {
    seq(|s|, t requires 0 <= t < |s| && PositiveCloses(s) => RowAt(s, t))
  }

  /** `dropna()`: keep the defined rows, in order; nothing else is added, and a table without gaps loses nothing. */
  function DropUndefined<T>(xs: seq<Option<T>>): (r: seq<T>)
    ensures |r| <= |xs|
    ensures forall x :: x in r ==> Some(x) in xs
    ensures (forall i :: 0 <= i < |xs| ==> xs[i].Some?) ==> |r| == |xs|
  {
    if xs == [] then []
    else (if xs[0].Some? then [xs[0].value] else []) + DropUndefined(xs[1..])
  }

  /** `add_features`: sort by date, derive the columns, drop undefined rows; n bars give max(0, n - 19) rows. */
  function AddFeatures(bars: seq<Bar>): (r: seq<FeatureRow>)
    requires PositiveCloses(bars)
    ensures |r| == if |bars| < LongWindow then 0 else |bars| - (LongWindow - 1)
  {
    var s := SortByDate(bars);
    FeatureTableDefinedFrom(s);
    DropUndefinedSuffix(FeatureTable(s), LongWindow - 1);
    DropUndefined(FeatureTable(s))
  }

  /** The rows of the sorted table that `dropna` keeps are exactly those from row 19 on. */
  lemma FeatureTableDefinedFrom(s: seq<Bar>)
    requires PositiveCloses(s)
    ensures forall t :: 0 <= t < |s| ==> (FeatureTable(s)[t].Some? <==> t >= LongWindow - 1)
  {
  }

  // ---------------------------------------------------------------------------
  // Which rows survive

  lemma {:induction false} DropUndefinedSuffix<T>(xs: seq<Option<T>>, k: nat)
    requires forall t :: 0 <= t < |xs| ==> (xs[t].Some? <==> t >= k)
    ensures |DropUndefined(xs)| == if |xs| <= k then 0 else |xs| - k
    ensures forall i :: 0 <= i < |DropUndefined(xs)| ==> DropUndefined(xs)[i] == xs[i + k].value
  {
    if xs != [] {
      var k' := if k == 0 then 0 else k - 1;
      assert forall t :: 0 <= t < |xs[1..]| ==> xs[1..][t] == xs[t + 1];
      DropUndefinedSuffix(xs[1..], k');
      if k == 0 {
        assert DropUndefined(xs) == [xs[0].value] + DropUndefined(xs[1..]);
      } else {
        assert DropUndefined(xs) == DropUndefined(xs[1..]);
      }
    }
  }

  /**
    With n bars the output holds exactly the sorted rows 19..n-1: none at all
    for 19 bars or fewer, one for 20 bars, n - 19 in general.
   */
  lemma AddFeaturesRows(bars: seq<Bar>)
    requires PositiveCloses(bars)
    ensures var s, r := SortByDate(bars), AddFeatures(bars);
      PositiveCloses(s) &&
      |r| == (if |bars| < LongWindow then 0 else |bars| - (LongWindow - 1)) &&
      forall i :: 0 <= i < |r| ==> RowAt(s, i + LongWindow - 1) == Some(r[i]) && r[i].bar == s[i + LongWindow - 1]
  {
    var s := SortByDate(bars);
    var rows := FeatureTable(s);
    FeatureTableDefinedFrom(s);
    DropUndefinedSuffix(rows, LongWindow - 1);
  }

  /** The output rows are in ascending date order, strictly so when the input dates are unique. */
  lemma AddFeaturesOrdered(bars: seq<Bar>)
    requires PositiveCloses(bars)
    ensures var r := AddFeatures(bars);
      (forall i, j :: 0 <= i < j < |r| ==> r[i].bar.date <= r[j].bar.date) &&
      (UniqueDates(bars) ==> forall i, j :: 0 <= i < j < |r| ==> r[i].bar.date < r[j].bar.date)
  {
    var s, r := SortByDate(bars), AddFeatures(bars);
    AddFeaturesRows(bars);
    if UniqueDates(bars) {
      UniqueKeysPermutation(bars, s, DateOf);
      forall i, j | 0 <= i < j < |r| ensures r[i].bar.date < r[j].bar.date {
        assert ByDate(s[i + LongWindow - 1], s[j + LongWindow - 1]);
        assert DateOf(s[i + LongWindow - 1]) != DateOf(s[j + LongWindow - 1]);
      }
    }
  }

  /** With unique dates the result does not depend on the order of the input rows. */
  lemma AddFeaturesOrderIndependent(a: seq<Bar>, b: seq<Bar>)
    requires PositiveCloses(a) && PositiveCloses(b)
    requires multiset(a) == multiset(b)
    requires UniqueDates(a)
    ensures AddFeatures(a) == AddFeatures(b)
  {
    var sa, sb := SortByDate(a), SortByDate(b);
    UniqueDatesNoTies(a, sa);
    SortedUnique(sa, sb, ByDate);
  }

  // ---------------------------------------------------------------------------
  // Column definitions and no lookahead

  /** A defined row carries the columns named by the definitions above. */
  lemma RowAtColumns(s: seq<Bar>, t: nat)
    requires PositiveCloses(s)
    requires LongWindow - 1 <= t < |s|
    ensures var c := Closes(s);
      var m5, m20 := Mean(c[t + 1 - ShortWindow..t + 1]), Mean(c[t + 1 - LongWindow..t + 1]);
      c[t - 1] > 0.0 && m5 > 0.0 && m20 > 0.0 &&
      RowAt(s, t) == Some(FeatureRow(s[t], c[t] / c[t - 1] - 1.0, m5, m20, c[t] / m5 - 1.0, c[t] / m20 - 1.0, TargetUp(c, t)))
  {
    var c := Closes(s);
    assert RollingMean(c, t, ShortWindow) == Some(Mean(c[t + 1 - ShortWindow..t + 1]));
    assert RollingMean(c, t, LongWindow) == Some(Mean(c[t + 1 - LongWindow..t + 1]));
  }

  /** The columns of output row `i`, which is sorted row `t = i + 19`. */
  lemma AddFeaturesColumns(bars: seq<Bar>, i: nat)
    requires PositiveCloses(bars)
    requires i < |AddFeatures(bars)|
    ensures var s, r, t := SortByDate(bars), AddFeatures(bars)[i], i + LongWindow - 1;
      var c := Closes(s);
      t < |s| &&
      r.bar == s[t] &&
      c[t - 1] > 0.0 &&
      r.ret1d == c[t] / c[t - 1] - 1.0 &&
      r.ma5 == Mean(c[t + 1 - ShortWindow..t + 1]) &&
      r.ma20 == Mean(c[t + 1 - LongWindow..t + 1]) &&
      r.ma5 > 0.0 && r.ma20 > 0.0 &&
      r.ma5Gap == c[t] / r.ma5 - 1.0 &&
      r.ma20Gap == c[t] / r.ma20 - 1.0 &&
      (r.targetUp == 1 <==> t + 1 < |s| && c[t + 1] > c[t])
  {
    var s, t := SortByDate(bars), i + LongWindow - 1;
    AddFeaturesRows(bars);
    RowFields(s, t, AddFeatures(bars)[i]);
  }

  /** The fields of a defined sorted row `r` at `t`: the column facts of `RowAtColumns`, field by field. */
  lemma RowFields(s: seq<Bar>, t: nat, r: FeatureRow)
    requires PositiveCloses(s)
    requires LongWindow - 1 <= t < |s| && RowAt(s, t) == Some(r)
    ensures var c := Closes(s);
      r.bar == s[t] &&
      c[t - 1] > 0.0 &&
      r.ret1d == c[t] / c[t - 1] - 1.0 &&
      r.ma5 == Mean(c[t + 1 - ShortWindow..t + 1]) &&
      r.ma20 == Mean(c[t + 1 - LongWindow..t + 1]) &&
      r.ma5 > 0.0 && r.ma20 > 0.0 &&
      r.ma5Gap == c[t] / r.ma5 - 1.0 &&
      r.ma20Gap == c[t] / r.ma20 - 1.0 &&
      (r.targetUp == 1 <==> t + 1 < |s| && c[t + 1] > c[t])
  {
    RowAtColumns(s, t);
  }

  /**
    No lookahead: the return, the means and the gaps at row `t` are the same
    for any two close series that agree on rows t-19..t, whatever follows.
   */
  lemma NoLookahead(c: seq<real>, c': seq<real>, t: nat)
    requires Positive(c) && Positive(c')
    requires t < |c| && t < |c'|
    requires forall j :: t + 1 - LongWindow <= j <= t && 0 <= j ==> c[j] == c'[j]
    ensures PctChange(c, t) == PctChange(c', t)
    ensures RollingMean(c, t, ShortWindow) == RollingMean(c', t, ShortWindow)
    ensures RollingMean(c, t, LongWindow) == RollingMean(c', t, LongWindow)
    ensures Gap(c, t, ShortWindow) == Gap(c', t, ShortWindow)
    ensures Gap(c, t, LongWindow) == Gap(c', t, LongWindow)
  {
    if t + 1 >= ShortWindow {
      assert c[t + 1 - ShortWindow..t + 1] == c'[t + 1 - ShortWindow..t + 1];
    }
    if t + 1 >= LongWindow {
      assert c[t + 1 - LongWindow..t + 1] == c'[t + 1 - LongWindow..t + 1];
    }
  }

  /**
    No lookahead on whole rows: two sorted tables that agree on rows 0..t give
    row `t` the same features; only the label may differ.
   */
  lemma NoLookaheadRow(s: seq<Bar>, s': seq<Bar>, t: nat)
    requires PositiveCloses(s) && PositiveCloses(s')
    requires t < |s| && t < |s'| && s[..t + 1] == s'[..t + 1]
    ensures RowAt(s, t).Some? == RowAt(s', t).Some?
    ensures RowAt(s, t).Some? ==> RowAt(s, t).value.(targetUp := 0) == RowAt(s', t).value.(targetUp := 0)
  {
    var c, c' := Closes(s), Closes(s');
    forall j | 0 <= j <= t ensures c[j] == c'[j] {
      assert s[j] == s[..t + 1][j] == s'[..t + 1][j] == s'[j];
    }
    NoLookahead(c, c', t);
  }

  // ---------------------------------------------------------------------------
  // The label

  /** The label of output row `i` compares the close of the next output row with its own. */
  lemma AddFeaturesLabelAt(bars: seq<Bar>, i: nat)
    requires PositiveCloses(bars)
    requires i < |AddFeatures(bars)|
    ensures var r := AddFeatures(bars);
      r[i].targetUp == 1 <==> i + 1 < |r| && r[i + 1].bar.close > r[i].bar.close
  {
    AddFeaturesRows(bars);
    AddFeaturesColumns(bars, i);
    if i + 1 < |AddFeatures(bars)| {
      AddFeaturesColumns(bars, i + 1);
    }
  }

  /**
    The label of an output row is 1 exactly when the next output row has a
    strictly greater close; the last output row is the newest bar and its
    label is 0.
   */
  lemma AddFeaturesLabel(bars: seq<Bar>)
    requires PositiveCloses(bars)
    ensures var s, r := SortByDate(bars), AddFeatures(bars);
      (forall i :: 0 <= i < |r| ==> (r[i].targetUp == 1 <==> i + 1 < |r| && r[i + 1].bar.close > r[i].bar.close)) &&
      (r != [] ==> r[|r| - 1].bar == s[|s| - 1] && r[|r| - 1].targetUp == 0)
  {
    var r := AddFeatures(bars);
    forall i | 0 <= i < |r|
      ensures r[i].targetUp == 1 <==> i + 1 < |r| && r[i + 1].bar.close > r[i].bar.close
    {
      AddFeaturesLabelAt(bars, i);
    }
    if r != [] {
      AddFeaturesLast(bars);
    }
  }

  /** The last output row is the newest sorted bar, and its label is 0. */
  lemma AddFeaturesLast(bars: seq<Bar>)
    requires PositiveCloses(bars) && AddFeatures(bars) != []
    ensures var s, r := SortByDate(bars), AddFeatures(bars);
      r[|r| - 1].bar == s[|s| - 1] && r[|r| - 1].targetUp == 0
  {
    var r := AddFeatures(bars);
    AddFeaturesRows(bars);
    AddFeaturesLabelAt(bars, |r| - 1);
  }

  // ---------------------------------------------------------------------------
  // The means

  lemma {:induction false} SumBounds(xs: seq<real>, lo: real, hi: real)
    requires forall i :: 0 <= i < |xs| ==> lo <= xs[i] <= hi
    ensures (|xs| as real) * lo <= Sum(xs) <= (|xs| as real) * hi
  {
    if xs != [] {
      var init := xs[..|xs| - 1];
      assert forall i :: 0 <= i < |init| ==> init[i] == xs[i];
      SumBounds(init, lo, hi);
      ScaleStep(|xs|, lo);
      ScaleStep(|xs|, hi);
    }
  }

  lemma ScaleStep(n: nat, x: real)
    requires n >= 1
    ensures (n as real) * x == ((n - 1) as real) * x + x
  {
  }

  /** A mean lies between the smallest and the largest value averaged. */
  lemma MeanBounds(xs: seq<real>, lo: real, hi: real)
    requires xs != []
    requires forall i :: 0 <= i < |xs| ==> lo <= xs[i] <= hi
    ensures lo <= Mean(xs) <= hi
  {
    SumBounds(xs, lo, hi);
    DivideBounds(Sum(xs), |xs| as real, lo, hi);
  }

  lemma DivideBounds(total: real, n: real, lo: real, hi: real)
    requires n > 0.0 && n * lo <= total <= n * hi
    ensures lo <= total / n <= hi
  {
    assert total / n - lo == (total - n * lo) / n;
    assert hi - total / n == (n * hi - total) / n;
  }

  /** Over a flat window (all k closes equal to the current one) the mean is that close and the gap is 0. */
  lemma FlatWindowGap(c: seq<real>, t: nat, k: nat)
    requires t < |c| && Positive(c) && 1 <= k <= t + 1
    requires forall j :: t + 1 - k <= j <= t ==> c[j] == c[t]
    ensures RollingMean(c, t, k) == Some(c[t])
    ensures Gap(c, t, k) == Some(0.0)
  {
    var w := c[t + 1 - k..t + 1];
    assert forall i :: 0 <= i < |w| ==> w[i] == c[t + 1 - k + i];
    MeanBounds(w, c[t], c[t]);
    assert c[t] / c[t] == 1.0;
  }

}
