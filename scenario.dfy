/** An end-to-end run of the pipeline on a small CSV upload. */
module Scenario {
  import opened Wrappers
  import opened Tables
  import opened FileNames
  import opened Text
  import Dedupe
  import MeanFill
  import Selection
  import opened Pipeline

  const Scores := Table(
    [Column("name", ObjectColumn), Column("score", NumberColumn)],
    [[Str("a"), Num(1.0)], [Str("b"), Missing], [Str("a"), Num(1.0)], [Str("c"), Num(4.0)]])

  const Deduplicated := [[Str("a"), Num(1.0)], [Str("b"), Missing], [Str("c"), Num(4.0)]]

  const Filled := Table(
    [Column("name", ObjectColumn), Column("score", NumberColumn)],
    [[Str("a"), Num(1.0)], [Str("b"), Num(2.5)], [Str("c"), Num(4.0)]])

  const Request1 := Request(true, true, false, ["name", "score"], "CSV")

  lemma ScenarioDedup()
    ensures Dedupe.Dedup(Scores.rows) == Deduplicated
  {
    var s := Scores.rows;
    assert s[..3] == Deduplicated[..2] + [s[2]];
    assert s[..3][..2] == Deduplicated[..2];
    assert Deduplicated[..2][..1] == [s[0]];
    assert [s[0]][..0] == [];
    assert Dedupe.Dedup([s[0]]) == [s[0]];
    assert Dedupe.Dedup(Deduplicated[..2]) == Deduplicated[..2];
    assert Dedupe.Dedup(s[..3]) == Deduplicated[..2];
  }

  lemma ScenarioFill()
    ensures MeanFill.FillMissing(Table(Scores.columns, Deduplicated)) == Filled
  {
    var t := Table(Scores.columns, Deduplicated);
    var cs := MeanFill.ColumnCells(t.rows, 1);
    assert cs == [Num(1.0), Missing, Num(4.0)];
    var c1, c2 := [Num(1.0)], [Num(1.0), Missing];
    assert c1[..0] == [] && c2[..1] == c1 && cs[..2] == c2;
    assert MeanFill.PresentCount(c1) == 1 && MeanFill.PresentSum(c1) == 1.0;
    assert MeanFill.PresentCount(c2) == 1 && MeanFill.PresentSum(c2) == 1.0;
    assert MeanFill.PresentCount(cs) == 2 && MeanFill.PresentSum(cs) == 5.0;
    var r := MeanFill.FillMissing(t);
    assert r.rows[1][1] == Num(2.5);
    assert r.rows[0] == Filled.rows[0];
    assert r.rows[1] == Filled.rows[1];
    assert r.rows[2] == Filled.rows[2];
  }

  /** A ".csv" upload converted to CSV keeps its name. */
  lemma CsvKeepsName(base: string)
    ensures Classify(base + ".csv") == Csv
    ensures OutputName(base + ".csv", Csv) == base + ".csv"
  {
    assert base + "." + "csv" == base + ".csv" by {
      JoinAssociates(base, ".", "csv");
      assert "." + "csv" == ".csv";
    }
    assert Classify("csv") == Csv by {
      DotFreeIsExtension("csv");
      assert Lower("csv") == "csv";
    }
    SplitAtLastDot(base, "csv");
    ClassifyBySuffix(base, "csv");
  }

  /** The scenario table, cleaned with both steps enabled. The arguments are
      pinned by `requires` so that the literal table enters the proof only
      through these equalities. */
  lemma ScenarioCleaned(t: Table, req: Request)
    requires t == Scores && req == Request1
    ensures WellFormed(t) && Cleaned(t, req) == Filled
  {
    ScenarioDedup();
    ScenarioFill();
    assert Dedupe.DropDuplicates(t) == Table(t.columns, Deduplicated);
  }

  /** A duplicate row and a missing number: with both steps enabled, every
      column selected and CSV chosen, the duplicate is gone and the gap holds
      the mean of the remaining distinct rows (2.5, not the 2 of all rows).
      The job is pinned by a `requires` so that the literal job enters the
      proof only through that equality. */
  lemma EndToEnd(base: string, j: Job)
    requires j == Job(Upload(base + ".csv", Scores), Request1)
    ensures Ready(j)
    ensures Process(j) == Some(Download(base + ".csv", "text/csv", Csv, Filled))
  {
    CsvKeepsName(base);
    ScenarioCleaned(j.upload.contents, j.request);
    assert Names(Filled.columns) == ["name", "score"];
    Selection.SelectAllIsIdentity(Filled);
  }
}
