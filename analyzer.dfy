/** The analyzer object: it holds the cleaned rows and the per-user table, which its three
    steps build, filter and extend in place. */
module RfmAnalysis {
  import opened Events
  import opened RfmModel

  /** How a step ended: refused because no table has been computed yet, completed, stopped by a
      failed integer cast of one score column, or stopped because score columns are missing. */
  datatype Outcome = NotCalculated | Done | CastFailed(column: Column) | MissingScores

  class RfmAnalyzer {
    const df: seq<Event>
    /** The per-user table; None until `CalculateRfm` has run. */
    var rfm: Option<RfmTable>
    /** The score columns the table carries; columns belong to the whole table, so an empty
        table can lack them too. */
    var scoreColumns: set<Column>

    /** The row cells agree with the table's score columns. */
    ghost predicate Valid()
      reads this
    {
      (rfm.None? ==> scoreColumns == {}) && (rfm.Some? ==> ColumnsPresent(rfm.value, scoreColumns))
    }

    constructor (df: seq<Event>)
      requires Dated(df)
      ensures this.df == df && rfm == None && scoreColumns == {}
      ensures Valid()
    {
      this.df := df;
      rfm := None;
      scoreColumns := {};
    }

    /** Aggregate R, F and M per purchasing user and keep the table, which has no score column. */
    method CalculateRfm() returns (result: RfmTable)
      requires Dated(df)
      modifies this`rfm, this`scoreColumns
      ensures result == RfmTableOf(df) && rfm == Some(result) && scoreColumns == {}
      ensures Valid()
    {
      result := RfmTableOf(df);
      rfm := Some(result);
      scoreColumns := {};
      AggregatedHasNoScores(df);
    }

    /** Without a table, do nothing. Otherwise keep the rows with positive F and M, then add the
        R, F and M scores one column at a time and finally the total; a column whose cast fails
        stops the step, leaving the columns added before it. */
    method ScoreRfm(qcut: map<int, int> -> seq<real>) returns (outcome: Outcome)
      requires Valid()
      modifies this`rfm, this`scoreColumns
      ensures Valid()
      ensures old(rfm).None? ==> outcome == NotCalculated && rfm == None && scoreColumns == {}
      ensures old(rfm).Some? ==>
                var s := Scored(old(rfm).value, qcut);
                && rfm == Some(s.table)
                && scoreColumns == old(scoreColumns) + ColumnsBefore(s.failed)
                && outcome == (if s.failed.None? then Done else CastFailed(s.failed.value))
    {
      if rfm.None? {
        return NotCalculated;
      }
      var cols := scoreColumns;
      ghost var scored := Scored(rfm.value, qcut);
      ScoredColumns(rfm.value, qcut, cols);
      ColumnsBeforeCases();
      var positive := PositiveOnly(rfm.value);
      assert scored == ScoreFromR(positive, qcut);
      rfm := Some(positive);
      var withR := ScoreStep(positive, RColumn, qcut, true);
      if withR.None? {
        assert scored == Scoring(positive, Some(RColumn));
        return CastFailed(RColumn);
      }
      assert scored == ScoreFromF(withR.value, qcut);
      rfm := withR;
      scoreColumns := cols + {RColumn};
      var withF := ScoreStep(withR.value, FColumn, qcut, false);
      if withF.None? {
        assert scored == Scoring(withR.value, Some(FColumn));
        return CastFailed(FColumn);
      }
      assert scored == ScoreFromM(withF.value, qcut);
      rfm := withF;
      scoreColumns := cols + {RColumn, FColumn};
      var withM := ScoreStep(withF.value, MColumn, qcut, false);
      if withM.None? {
        assert scored == Scoring(withF.value, Some(MColumn));
        return CastFailed(MColumn);
      }
      assert scored == Scoring(WithTotals(withM.value), None);
      rfm := Some(WithTotals(withM.value));
      scoreColumns := cols + ALL_SCORES;
      outcome := Done;
    }

    /** Without a table, do nothing; a table lacking a score column, even one with no rows,
        stops the step unchanged; otherwise every row gets the segment of its three scores. */
    method SegmentUsers() returns (outcome: Outcome)
      requires Valid()
      modifies this`rfm
      ensures Valid()
      ensures old(rfm).None? ==> outcome == NotCalculated && rfm == None
      ensures old(rfm).Some? && !(ALL_SCORES <= scoreColumns) ==> outcome == MissingScores && rfm == old(rfm)
      ensures old(rfm).Some? && ALL_SCORES <= scoreColumns ==>
                outcome == Done && Segmented(old(rfm).value).Some? && rfm == Segmented(old(rfm).value)
    {
      if rfm.None? {
        return NotCalculated;
      }
      if !(ALL_SCORES <= scoreColumns) {
        return MissingScores;
      }
      assert scoreColumns == ALL_SCORES by {
        forall c | c in scoreColumns ensures c in ALL_SCORES {
          assert c == RColumn || c == FColumn || c == MColumn;
        }
      }
      SegmentedWithAllColumns(rfm.value);
      rfm := Segmented(rfm.value);
      outcome := Done;
    }
  }

  /** Data without purchases, segmented before scoring: the empty table lacks the score
      columns, so segmentation stops. */
  method SegmentBeforeScoring() returns (outcome: Outcome)
    ensures outcome == MissingScores
  {
    var analyzer := new RfmAnalyzer([]);
    var table := analyzer.CalculateRfm();
    outcome := analyzer.SegmentUsers();
  }
}
