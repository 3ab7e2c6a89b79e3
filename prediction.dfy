/**
  The prediction step: take the newest feature row, and record one prediction
  for (ticker, as-of date) in the ledger unless one is already there.
  The classifier is outside the model; its up-probability is an input.
 */
module Prediction {
  import opened Wrappers
  import opened Sorting
  import opened Bars
  import opened Features

  /** One ledger row; the two scoring fields are unknown until the ledger is scored. */
  datatype Record = Record(
    runTime: string,
    ticker: string,
    asofDate: Date,
    predUp: Bit,
    probUp: real,
    signal: string,
    actualUp: Option<Bit>,
    isCorrect: Option<Bit>)

  /** What the append did: nothing, or one row, with the header when the file was created. */
  datatype AppendOutcome = Skipped | Appended(wroteHeader: bool)

  /** What a prediction run did. */
  datatype RunOutcome =
    | NoFeatureRows
    | AlreadyPredicted(ticker: string, asofDate: Date)
    | Recorded(row: Record, wroteHeader: bool)

  const Threshold: real := 0.5

  /** The ledger key of a row. */
  function KeyOf(r: Record): (string, Date)
  {
    (r.ticker, r.asofDate)
  }

  // ---------------------------------------------------------------------------
  // The newest feature row

  /** `iloc[-1:]` of the feature table: its last row, or nothing for an empty table. */
  function LatestRow(table: seq<FeatureRow>): (r: Option<FeatureRow>)
    ensures r.None? <==> table == []
    ensures r.Some? ==> r.value == table[|table| - 1]
  {
    if table == [] then None else Some(table[|table| - 1])
  }

  /**
    There is a newest feature row exactly when there are at least 20 bars, and
    then it is the bar with the latest date, so the as-of date is the newest
    date of the price table.
   */
  lemma LatestIsNewest(bars: seq<Bar>)
    requires PositiveCloses(bars)
    ensures LatestRow(AddFeatures(bars)).Some? <==> |bars| >= LongWindow
    ensures LatestRow(AddFeatures(bars)).Some? ==>
      var latest := LatestRow(AddFeatures(bars)).value.bar;
      latest in bars && forall b :: b in bars ==> b.date <= latest.date
  {
    var r := AddFeatures(bars);
    if r != [] {
      AddFeaturesLast(bars);
      NewestSortedBar(bars);
    }
  }

  /** The last bar of the date-sorted table is an input bar with the newest date. */
  lemma NewestSortedBar(bars: seq<Bar>)
    requires bars != []
    ensures var s := SortByDate(bars);
      s[|s| - 1] in bars && forall b :: b in bars ==> b.date <= s[|s| - 1].date
  {
    var s := SortByDate(bars);
    var latest := s[|s| - 1];
    assert latest in multiset(bars);
    forall b | b in bars ensures b.date <= latest.date {
      assert b in multiset(s);
      var k :| 0 <= k < |s| && s[k] == b;
      if k < |s| - 1 {
        assert ByDate(s[k], s[|s| - 1]);
      }
    }
  }

  // ---------------------------------------------------------------------------
  // The new row

  /** `int(prob_up >= 0.5)`. */
  function PredUp(prob: real): (b: Bit)
    ensures b == 1 <==> prob >= Threshold
    ensures b == 0 <==> prob < Threshold
  {
    if prob >= Threshold then 1 else 0
  }

  /** `"UP" if pred_up == 1 else "DOWN"`. */
  function Signal(predUp: Bit): (s: string)
    ensures s == "UP" <==> predUp == 1
    ensures s == "DOWN" <==> predUp == 0
  {
    if predUp == 1 then "UP" else "DOWN"
  }

  /**
    The row a run appends: predicted up exactly when the probability is at
    least 0.5 (a tie counts as up), the signal spelling the same decision, and
    no scoring fields.
   */
  function NewRecord(runTime: string, ticker: string, asofDate: Date, prob: real): (r: Record)
    ensures KeyOf(r) == (ticker, asofDate) && r.runTime == runTime && r.probUp == prob
    ensures r.predUp == 1 <==> prob >= 0.5
    ensures r.signal == "UP" <==> prob >= 0.5
    ensures r.signal == "DOWN" <==> prob < 0.5
    ensures r.actualUp == None && r.isCorrect == None
  {
    var up := PredUp(prob);
    Record(runTime, ticker, asofDate, up, prob, Signal(up), None, None)
  }

  // ---------------------------------------------------------------------------
  // The ledger's rows

  /** Some row of `rows` has the key (ticker, date). */
  predicate HasKey(rows: seq<Record>, ticker: string, date: Date)
  {
    exists i :: 0 <= i < |rows| && KeyOf(rows[i]) == (ticker, date)
  }

  /** The number of rows with key (ticker, date). */
  function CountKey(rows: seq<Record>, ticker: string, date: Date): nat
  {
    if rows == [] then 0
    else CountKey(rows[..|rows| - 1], ticker, date) + (if KeyOf(rows[|rows| - 1]) == (ticker, date) then 1 else 0)
  }

  /** At most one row per (ticker, as-of date): the ledger's central invariant. */
  ghost predicate UniqueRows(rows: seq<Record>)
  {
    UniqueKeys(rows, KeyOf)
  }

  /** The rows after the check-then-append: unchanged when the key is present, else `rec` added at the end. */
  function AfterAppend(rows: seq<Record>, rec: Record): (r: seq<Record>)
    ensures HasKey(r, rec.ticker, rec.asofDate)
    ensures |rows| <= |r| <= |rows| + 1 && r[..|rows|] == rows
  {
    if HasKey(rows, rec.ticker, rec.asofDate) then rows
    else
      assert KeyOf((rows + [rec])[|rows|]) == (rec.ticker, rec.asofDate);
      rows + [rec]
  }

  lemma {:induction false} CountKeyPositive(rows: seq<Record>, ticker: string, date: Date)
    ensures CountKey(rows, ticker, date) > 0 <==> HasKey(rows, ticker, date)
  {
    if rows != [] {
      var init := rows[..|rows| - 1];
      CountKeyPositive(init, ticker, date);
      if HasKey(rows, ticker, date) && KeyOf(rows[|rows| - 1]) != (ticker, date) {
        var i :| 0 <= i < |rows| && KeyOf(rows[i]) == (ticker, date);
        assert init[i] == rows[i];
      }
      if HasKey(init, ticker, date) {
        var i :| 0 <= i < |init| && KeyOf(init[i]) == (ticker, date);
        assert rows[i] == init[i];
      }
    }
  }

  /** Appending keeps every earlier row where it was and adds at most one row, at the end. */
  lemma AppendKeepsRows(rows: seq<Record>, rec: Record)
    ensures var r := AfterAppend(rows, rec);
      r[..|rows|] == rows &&
      |r| == |rows| + (if HasKey(rows, rec.ticker, rec.asofDate) then 0 else 1) &&
      (|r| > |rows| ==> r[|rows|] == rec)
  {
  }

  /** After the append the ledger holds exactly one row for the new key if it held at most one before. */
  lemma AppendCount(rows: seq<Record>, rec: Record)
    ensures var n := CountKey(rows, rec.ticker, rec.asofDate);
      CountKey(AfterAppend(rows, rec), rec.ticker, rec.asofDate) == if n == 0 then 1 else n
  {
    CountKeyPositive(rows, rec.ticker, rec.asofDate);
    if !HasKey(rows, rec.ticker, rec.asofDate) {
      assert (rows + [rec])[..|rows|] == rows;
    }
  }

  /** The append preserves uniqueness of (ticker, as-of date). */
  lemma AppendKeepsUnique(rows: seq<Record>, rec: Record)
    requires UniqueRows(rows)
    ensures UniqueRows(AfterAppend(rows, rec))
  {
    if !HasKey(rows, rec.ticker, rec.asofDate) {
      var r := rows + [rec];
      forall i, j | 0 <= i < j < |r| ensures KeyOf(r[i]) != KeyOf(r[j]) {
        if j < |rows| {
          assert KeyOf(rows[i]) != KeyOf(rows[j]);
        } else {
          assert r[i] == rows[i];
        }
      }
    }
  }

  /** A second run for the same key changes nothing: appending twice leaves one row. */
  lemma AppendIdempotent(rows: seq<Record>, rec: Record, again: Record)
    requires KeyOf(again) == KeyOf(rec)
    ensures AfterAppend(AfterAppend(rows, rec), again) == AfterAppend(rows, rec)
  {
    var r := AfterAppend(rows, rec);
    if !HasKey(rows, rec.ticker, rec.asofDate) {
      assert r[|rows|] == rec;
    }
    assert HasKey(r, again.ticker, again.asofDate);
  }

  // ---------------------------------------------------------------------------
  // The ledger file

  /** The prediction history file: whether it exists, and its rows. */
  class LedgerFile {
    var fileExists: bool
    var rows: seq<Record>

    /** A file that does not exist has no rows. */
    ghost predicate Valid()
      reads this
    {
      !fileExists ==> rows == []
    }

    constructor Missing()
      ensures Valid() && !fileExists && rows == []
    {
      fileExists := false;
      rows := [];
    }

    constructor Existing(contents: seq<Record>)
      ensures Valid() && fileExists && rows == contents
    {
      fileExists := true;
      rows := contents;
    }

    /** The duplicate check: does a row with this (ticker, as-of date) exist? */
    method HasPrediction(ticker: string, date: Date) returns (found: bool)
      ensures found == HasKey(rows, ticker, date)
    {
      found := false;
      var i := 0;
      while i < |rows|
        invariant 0 <= i <= |rows|
        invariant found == HasKey(rows[..i], ticker, date)
      {
        if KeyOf(rows[i]) == (ticker, date) {
          found := true;
        }
        assert rows[..i + 1] == rows[..i] + [rows[i]];
        i := i + 1;
      }
      assert rows[..i] == rows;
    }

    /**
      Append `rec` unless its (ticker, as-of date) is already recorded; the
      header is written exactly when the file is created by this append.
     */
    method AppendIfAbsent(rec: Record) returns (outcome: AppendOutcome)
      requires Valid()
      modifies this
      ensures Valid()
      ensures rows == AfterAppend(old(rows), rec)
      ensures HasKey(old(rows), rec.ticker, rec.asofDate) ==>
        outcome == Skipped && fileExists == old(fileExists)
      ensures !HasKey(old(rows), rec.ticker, rec.asofDate) ==>
        outcome == Appended(!old(fileExists)) && fileExists
    {
      var duplicate := false;
      if fileExists {
        duplicate := HasPrediction(rec.ticker, rec.asofDate);
      }
      if duplicate {
        outcome := Skipped;
      } else {
        var writeHeader := !fileExists;
        rows := rows + [rec];
        fileExists := true;
        outcome := Appended(writeHeader);
      }
    }

    /** Replace the whole file by `contents`. */
    method Overwrite(contents: seq<Record>)
      modifies this
      ensures Valid() && fileExists && rows == contents
    {
      rows := contents;
      fileExists := true;
    }
  }

  // ---------------------------------------------------------------------------
  // A prediction run

  /**
    One run: derive the features, drop rows with a missing feature column,
    take the newest row as the as-of date, skip when that date is already
    recorded for `ticker`, else append the thresholded prediction for
    `prob`, the classifier's up-probability for that row. `NoFeatureRows`
    stands for the uncaught `IndexError` an empty feature table raises, which
    ends the run before the ledger is touched.
   */
  method PredictNextDay(ledger: LedgerFile, bars: seq<Bar>, ticker: string, prob: real, runTime: string)
    returns (outcome: RunOutcome)
    requires ledger.Valid() && PositiveCloses(bars)
    requires 0.0 <= prob <= 1.0
    modifies ledger
    ensures ledger.Valid()
    ensures LatestRow(AddFeatures(bars)).None? ==>
      outcome == NoFeatureRows && unchanged(ledger)
    ensures LatestRow(AddFeatures(bars)).Some? ==>
      var asof := LatestRow(AddFeatures(bars)).value.bar.date;
      var rec := NewRecord(runTime, ticker, asof, prob);
      ledger.rows == AfterAppend(old(ledger.rows), rec) &&
      (HasKey(old(ledger.rows), ticker, asof) ==>
        outcome == AlreadyPredicted(ticker, asof) && ledger.fileExists == old(ledger.fileExists)) &&
      (!HasKey(old(ledger.rows), ticker, asof) ==>
        outcome == Recorded(rec, !old(ledger.fileExists)) && ledger.fileExists)
  {
    DropMissingFeaturesKeepsAll(AddFeatures(bars));
    var latest := LatestRow(DropMissingFeatures(AddFeatures(bars)));
    if latest.None? {
      return NoFeatureRows;
    }
    var asof := latest.value.bar.date;
    var rec := NewRecord(runTime, ticker, asof, prob);
    var appended := ledger.AppendIfAbsent(rec);
    match appended
    case Skipped =>
      outcome := AlreadyPredicted(ticker, asof);
    case Appended(header) =>
      outcome := Recorded(rec, header);
  }

}
