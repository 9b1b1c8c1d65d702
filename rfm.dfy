/** Recency/frequency/monetary aggregates per purchasing user, quantile-bin scores and the
    five-rule segmentation, as functions on the cleaned rows and on the per-user table. */
module RfmModel {
  import opened Events
  import opened Seqs
  import Cleaning

  // ---------------------------------------------------------------------------
  // Per-user aggregates

  /** Every row carries the derived date column. */
  ghost predicate Dated(rows: seq<Event>)
  {
    forall i :: 0 <= i < |rows| ==> rows[i].stamp.Some?
  }

  function DateOf(e: Event): int
    requires e.stamp.Some?
  {
    e.stamp.value.date
  }

  predicate PurchaseOf(e: Event, userId: int)
  {
    Cleaning.IsPurchase(e) && e.userId == userId
  }

  function PurchasedBy(userId: int): Event -> bool
  {
    (e: Event) => PurchaseOf(e, userId)
  }

  /** The latest date of any row: the anchor that recency is measured from. */
  function LastDate(rows: seq<Event>): (d: int)
    requires |rows| > 0 && Dated(rows)
    ensures exists i :: 0 <= i < |rows| && DateOf(rows[i]) == d
    ensures forall i :: 0 <= i < |rows| ==> DateOf(rows[i]) <= d
    decreases |rows|
  {
    if |rows| == 1 then DateOf(rows[0])
    else
      assert forall i :: 1 <= i < |rows| ==> rows[i] == rows[1..][i - 1];
      var rest := LastDate(rows[1..]);
      if DateOf(rows[0]) >= rest then DateOf(rows[0]) else rest
  }

  /** The latest purchase date of a user, if the user purchased at all. */
  function LastPurchaseDate(rows: seq<Event>, userId: int): (d: Option<int>)
    requires Dated(rows)
    ensures d.None? <==> forall i :: 0 <= i < |rows| ==> !PurchaseOf(rows[i], userId)
    ensures d.Some? ==> exists i :: 0 <= i < |rows| && PurchaseOf(rows[i], userId) && DateOf(rows[i]) == d.value
    ensures d.Some? ==> forall i :: 0 <= i < |rows| && PurchaseOf(rows[i], userId) ==> DateOf(rows[i]) <= d.value
    decreases |rows|
  {
    if |rows| == 0 then None
    else
      assert forall i :: 1 <= i < |rows| ==> rows[i] == rows[1..][i - 1];
      var rest := LastPurchaseDate(rows[1..], userId);
      if !PurchaseOf(rows[0], userId) then rest
      else if rest.None? || DateOf(rows[0]) >= rest.value then Some(DateOf(rows[0]))
      else rest
  }

  function PurchaseCount(rows: seq<Event>, userId: int): nat
  {
    Count(rows, PurchasedBy(userId))
  }

  /** The users with at least one purchase row. */
  function Purchasers(rows: seq<Event>): set<int>
  {
    set i | 0 <= i < |rows| && Cleaning.IsPurchase(rows[i]) :: rows[i].userId
  }

  datatype Segment = HighValue | Potential | Newcomer | LapsedHighValue | Ordinary

  /** One row of the per-user table: the three aggregates and the columns scoring and
      segmentation add (None while a column has not been added). */
  datatype RfmRow = RfmRow(
    r: int, f: int, m: int,
    rScore: Option<int>, fScore: Option<int>, mScore: Option<int>,
    total: Option<int>, segment: Option<Segment>)

  type RfmTable = map<int, RfmRow>

  function UserRfm(rows: seq<Event>, userId: int): (row: RfmRow)
    requires Dated(rows) && userId in Purchasers(rows)
  {
    var last := LastPurchaseDate(rows, userId);
    var n := PurchaseCount(rows, userId);
    RfmRow(LastDate(rows) - last.value, n, n, None, None, None, None, None)
  }

  /** R = days from the user's last purchase to the last date of the data; F = M = purchase count. */
  function RfmTableOf(rows: seq<Event>): (t: RfmTable)
    requires Dated(rows)
  {
    map u | u in Purchasers(rows) :: UserRfm(rows, u)
  }

  /** The table has a row exactly for each user with a purchase; F and M both equal that
      user's number of purchases; R is the distance in days from the user's latest purchase
      date to the latest date of any row, and so is never negative. */
  lemma RfmTableSpec(rows: seq<Event>)
    requires Dated(rows)
    ensures forall u :: u in RfmTableOf(rows) <==> exists i :: 0 <= i < |rows| && PurchaseOf(rows[i], u)
    ensures forall u :: u in RfmTableOf(rows) ==>
              RfmTableOf(rows)[u].f == RfmTableOf(rows)[u].m == PurchaseCount(rows, u) >= 1
    ensures forall u :: u in RfmTableOf(rows) ==> RfmTableOf(rows)[u].r >= 0
    ensures forall u :: u in RfmTableOf(rows) ==>
              var lastPurchase := LastDate(rows) - RfmTableOf(rows)[u].r;
              && (exists i :: 0 <= i < |rows| && PurchaseOf(rows[i], u) && DateOf(rows[i]) == lastPurchase)
              && (forall i :: 0 <= i < |rows| && PurchaseOf(rows[i], u) ==> DateOf(rows[i]) <= lastPurchase)
  {
    var t := RfmTableOf(rows);
    forall u
      ensures u in t <==> exists i :: 0 <= i < |rows| && PurchaseOf(rows[i], u)
    {
      if exists i :: 0 <= i < |rows| && PurchaseOf(rows[i], u) {
        var i :| 0 <= i < |rows| && PurchaseOf(rows[i], u);
        assert rows[i].userId in Purchasers(rows);
      }
    }
    forall u | u in t
      ensures t[u].f == t[u].m == PurchaseCount(rows, u) >= 1
      ensures t[u].r >= 0
    {
      var i :| 0 <= i < |rows| && PurchaseOf(rows[i], u);
      CountPositive(rows, PurchasedBy(u), i);
    }
  }

  /** The cleaner's output carries the date column, so it is a valid input to the aggregation. */
  lemma CleanedRowsDated(raw: seq<RawRow>)
    requires Cleaning.CleanPipeline(raw).Some?
    ensures Dated(Cleaning.CleanPipeline(raw).value)
  {
    Cleaning.CleanPipelineSpec(raw);
  }

  /** One user who clicks and then buys once, on the last day of the data: R = 0, F = M = 1. */
  lemma SinglePurchaseOnLastDay(click: Event, buy: Event)
    requires Cleaning.IsClick(click) && Cleaning.IsPurchase(buy) && click.userId == buy.userId
    requires click.stamp.Some? && buy.stamp.Some? && click.stamp.value.date <= buy.stamp.value.date
    ensures RfmTableOf([click, buy]) == map[buy.userId := RfmRow(0, 1, 1, None, None, None, None, None)]
  {
    var rows := [click, buy];
    assert Purchasers(rows) == {buy.userId};
    assert LastDate(rows) == buy.stamp.value.date;
    assert LastPurchaseDate(rows, buy.userId) == Some(buy.stamp.value.date);
    assert PurchaseCount(rows, buy.userId) == 1 by {
      var p := PurchasedBy(buy.userId);
      assert rows[1..] == [buy] && [buy][1..] == [];
      assert !p(click) && p(buy);
      assert Count([buy], p) == 1;
    }
  }

  // ---------------------------------------------------------------------------
  // Quantile-bin scores against given edges

  ghost predicate StrictlyIncreasing(edges: seq<real>)
  {
    forall i, j :: 0 <= i < j < |edges| ==> edges[i] < edges[j]
  }

  /** The edges that cutting into five quantile bins yields once repeated edges are dropped:
      one to six strictly increasing values. */
  ghost predicate QcutEdges(edges: seq<real>)
  {
    1 <= |edges| <= 6 && StrictlyIncreasing(edges)
  }

  /** The number of edges strictly below `v` (a left-sided sorted search). */
  function CountBelow(edges: seq<real>, v: int): nat
    decreases |edges|
  {
    if |edges| == 0 then 0 else (if edges[0] < v as real then 1 else 0) + CountBelow(edges[1..], v)
  }

  /** The 1-based bin of `v` for right-closed bins whose lowest edge is included; None for a
      value outside every bin (it becomes a missing value). */
  function Bin(v: int, edges: seq<real>): (b: Option<nat>)
  {
    var k := if |edges| > 0 && v as real == edges[0] then 1 else CountBelow(edges, v);
    if 1 <= k < |edges| then Some(k) else None
  }

  /** The score label of a value: bins 1..n are labelled 1..n, or n..1 when `reversed`. */
  function Score(v: int, edges: seq<real>, reversed: bool): (s: Option<int>)
  {
    var b := Bin(v, edges);
    if b.None? then None
    else if reversed then Some(|edges| - b.value) else Some(b.value)
  }

  lemma {:induction false} CountBelowSorted(edges: seq<real>, v: int)
    requires StrictlyIncreasing(edges)
    ensures CountBelow(edges, v) <= |edges|
    ensures forall i :: 0 <= i < CountBelow(edges, v) ==> edges[i] < v as real
    ensures forall i :: CountBelow(edges, v) <= i < |edges| ==> v as real <= edges[i]
    decreases |edges|
  {
    if |edges| > 0 {
      var rest := edges[1..];
      assert forall i :: 1 <= i < |edges| ==> edges[i] == rest[i - 1];
      CountBelowSorted(rest, v);
      if !(edges[0] < v as real) {
        assert CountBelow(rest, v) == 0 by {
          assert |rest| > 0 ==> edges[0] < rest[0];
        }
      }
    }
  }

  lemma {:induction false} CountBelowMonotone(edges: seq<real>, v1: int, v2: int)
    requires v1 <= v2
    ensures CountBelow(edges, v1) <= CountBelow(edges, v2)
    decreases |edges|
  {
    if |edges| > 0 {
      CountBelowMonotone(edges[1..], v1, v2);
    }
  }

  /** A value gets a bin exactly when there are at least two edges and it lies between the
      first and the last; bin k holds the values above edge k-1 up to and including edge k,
      and the first bin also holds the lowest edge itself. */
  lemma BinSpec(v: int, edges: seq<real>)
    requires StrictlyIncreasing(edges)
    ensures Bin(v, edges).Some? <==> |edges| >= 2 && edges[0] <= v as real <= edges[|edges| - 1]
    ensures Bin(v, edges).Some? ==>
              var k := Bin(v, edges).value;
              && 1 <= k < |edges|
              && (edges[k - 1] < v as real <= edges[k] || (k == 1 && v as real == edges[0]))
  {
    CountBelowSorted(edges, v);
  }

  /** A larger value never lands in a lower bin. */
  lemma BinMonotone(v1: int, v2: int, edges: seq<real>)
    requires StrictlyIncreasing(edges)
    requires v1 <= v2 && Bin(v1, edges).Some? && Bin(v2, edges).Some?
    ensures Bin(v1, edges).value <= Bin(v2, edges).value
  {
    CountBelowMonotone(edges, v1, v2);
    CountBelowSorted(edges, v1);
    CountBelowSorted(edges, v2);
  }

  /** Scores lie in 1..n for the n = |edges| - 1 realised bins: a plain score is the bin
      number itself (labels 1..n), a reversed score is n + 1 minus it (labels n..1); so a
      reversed score falls as the value grows and a plain score rises with it. */
  lemma ScoreSpec(v1: int, v2: int, edges: seq<real>)
    requires QcutEdges(edges)
    ensures Score(v1, edges, true).Some? <==> Bin(v1, edges).Some?
    ensures Score(v1, edges, false).Some? <==> Bin(v1, edges).Some?
    ensures Score(v1, edges, true).Some? ==> 1 <= Score(v1, edges, true).value <= |edges| - 1 <= 5
    ensures Score(v1, edges, false).Some? ==> 1 <= Score(v1, edges, false).value <= |edges| - 1 <= 5
    ensures Bin(v1, edges).Some? ==> Score(v1, edges, true).value == |edges| - Bin(v1, edges).value
    ensures Bin(v1, edges).Some? ==> Score(v1, edges, false).value == Bin(v1, edges).value
    ensures v1 <= v2 && Bin(v1, edges).Some? && Bin(v2, edges).Some? ==>
              Score(v1, edges, true).value >= Score(v2, edges, true).value &&
              Score(v1, edges, false).value <= Score(v2, edges, false).value
  {
    if v1 <= v2 && Bin(v1, edges).Some? && Bin(v2, edges).Some? {
      BinMonotone(v1, v2, edges);
    }
  }

  /** Score every value of a column; None when some value falls in no bin (the integer
      cast of a missing value fails). */
  function ScoreColumn(col: map<int, int>, edges: seq<real>, reversed: bool): (s: Option<map<int, int>>)
    ensures s.Some? <==> forall u :: u in col ==> Bin(col[u], edges).Some?
    ensures s.Some? ==> s.value.Keys == col.Keys
    ensures s.Some? ==> forall u :: u in col ==> Score(col[u], edges, reversed) == Some(s.value[u])
  {
    if forall u :: u in col ==> Bin(col[u], edges).Some?
    then Some(map u | u in col :: Score(col[u], edges, reversed).value)
    else None
  }

  // ---------------------------------------------------------------------------
  // The scoring step on the table

  datatype Column = RColumn | FColumn | MColumn

  /** What scoring leaves in the table, and the column whose cast failed, if one did. */
  datatype Scoring = Scoring(table: RfmTable, failed: Option<Column>)

  function ValueOf(row: RfmRow, c: Column): int
  {
    match c
    case RColumn => row.r
    case FColumn => row.f
    case MColumn => row.m
  }

  function Values(t: RfmTable, c: Column): (col: map<int, int>)
    ensures col.Keys == t.Keys
    ensures forall u :: u in t ==> col[u] == ValueOf(t[u], c)
  {
    map u | u in t :: ValueOf(t[u], c)
  }

  function SetScore(row: RfmRow, c: Column, score: int): RfmRow
  {
    match c
    case RColumn => row.(rScore := Some(score))
    case FColumn => row.(fScore := Some(score))
    case MColumn => row.(mScore := Some(score))
  }

  function SetScores(t: RfmTable, scores: map<int, int>, c: Column): (t': RfmTable)
    requires t.Keys <= scores.Keys
    ensures t'.Keys == t.Keys
    ensures forall u :: u in t ==> t'[u] == SetScore(t[u], c, scores[u])
  {
    map u | u in t :: SetScore(t[u], c, scores[u])
  }

  /** Score one column against the edges `qcut` gives for it: None when a value falls in no
      bin; otherwise each row gets that column's score and nothing else changes. */
  function ScoreStep(t: RfmTable, c: Column, qcut: map<int, int> -> seq<real>, reversed: bool): (r: Option<RfmTable>)
    ensures r.Some? <==> forall u :: u in t ==> Bin(ValueOf(t[u], c), qcut(Values(t, c))).Some?
    ensures r.Some? ==> r.value.Keys == t.Keys
    ensures r.Some? ==> forall u :: u in t ==>
              r.value[u] == SetScore(t[u], c, Score(ValueOf(t[u], c), qcut(Values(t, c)), reversed).value)
  {
    var col := Values(t, c);
    var scores := ScoreColumn(col, qcut(col), reversed);
    if scores.None? then None else Some(SetScores(t, scores.value, c))
  }

  /** The rows whose F and M are positive. */
  function PositiveOnly(t: RfmTable): (t': RfmTable)
  {
    map u | u in t && t[u].f > 0 && t[u].m > 0 :: t[u]
  }

  predicate HasScores(row: RfmRow)
  {
    row.rScore.Some? && row.fScore.Some? && row.mScore.Some?
  }

  /** RFM_total: the sum of the three scores, missing when any of them is. */
  function WithTotal(row: RfmRow): RfmRow
  {
    row.(total := if HasScores(row) then Some(row.rScore.value + row.fScore.value + row.mScore.value) else None)
  }

  function WithTotals(t: RfmTable): (t': RfmTable)
    ensures t'.Keys == t.Keys
    ensures forall u :: u in t ==> t'[u] == WithTotal(t[u])
  {
    map u | u in t :: WithTotal(t[u])
  }

  /** Keep positive F and M, score R with reversed labels, then F and M with plain labels, each
      against the edges `qcut` gives for that column, then add the total. */
  function Scored(t: RfmTable, qcut: map<int, int> -> seq<real>): Scoring
  {
    ScoreFromR(PositiveOnly(t), qcut)
  }

  function ScoreFromR(t0: RfmTable, qcut: map<int, int> -> seq<real>): Scoring
  {
    var t1 := ScoreStep(t0, RColumn, qcut, true);
    if t1.None? then Scoring(t0, Some(RColumn)) else ScoreFromF(t1.value, qcut)
  }

  function ScoreFromF(t1: RfmTable, qcut: map<int, int> -> seq<real>): Scoring
  {
    var t2 := ScoreStep(t1, FColumn, qcut, false);
    if t2.None? then Scoring(t1, Some(FColumn)) else ScoreFromM(t2.value, qcut)
  }

  function ScoreFromM(t2: RfmTable, qcut: map<int, int> -> seq<real>): Scoring
  {
    var t3 := ScoreStep(t2, MColumn, qcut, false);
    if t3.None? then Scoring(t2, Some(MColumn)) else Scoring(WithTotals(t3.value), None)
  }

  /** A scoring step leaves every aggregate column as it was. */
  lemma ScoreStepKeepsValues(t: RfmTable, c: Column, qcut: map<int, int> -> seq<real>, reversed: bool, d: Column)
    requires ScoreStep(t, c, qcut, reversed).Some?
    ensures Values(ScoreStep(t, c, qcut, reversed).value, d) == Values(t, d)
    ensures forall u :: u in t ==> ValueOf(ScoreStep(t, c, qcut, reversed).value[u], d) == ValueOf(t[u], d)
  {
  }

  /** Rows as the aggregation step produces them: F = M >= 1, no score columns yet. */
  ghost predicate Aggregated(t: RfmTable)
  {
    forall u :: u in t ==> t[u].f == t[u].m >= 1
  }

  lemma AggregatedFromRows(rows: seq<Event>)
    requires Dated(rows)
    ensures Aggregated(RfmTableOf(rows))
  {
    RfmTableSpec(rows);
  }

  /** On an aggregated table the M column equals the F column. */
  lemma AggregatedColumns(t: RfmTable)
    requires Aggregated(t)
    ensures Values(t, MColumn) == Values(t, FColumn)
  {
    var mc, fc := Values(t, MColumn), Values(t, FColumn);
    assert forall u :: u in mc ==> mc[u] == fc[u];
  }

  /** What a score column holds for a user after scoring: the ScoreSpec label of that value
      against the column's edges. */
  ghost predicate ScoredRow(row: RfmRow, src: RfmRow, rEdges: seq<real>, fEdges: seq<real>)
  {
    && row.r == src.r && row.f == src.f && row.m == src.m
    && row.rScore == Score(src.r, rEdges, true)
    && row.fScore == Score(src.f, fEdges, false)
    && row.mScore == Score(src.m, fEdges, false)
    && row.rScore.Some? && row.fScore.Some? && row.mScore.Some?
    && row.total == Some(row.rScore.value + row.fScore.value + row.mScore.value)
  }

  lemma RowAfterSteps(src: RfmRow, a: RfmRow, b: RfmRow, c: RfmRow, rEdges: seq<real>, fEdges: seq<real>)
    requires Score(src.r, rEdges, true).Some? && a == SetScore(src, RColumn, Score(src.r, rEdges, true).value)
    requires Score(src.f, fEdges, false).Some? && b == SetScore(a, FColumn, Score(src.f, fEdges, false).value)
    requires Score(src.m, fEdges, false).Some? && c == SetScore(b, MColumn, Score(src.m, fEdges, false).value)
    ensures HasScores(c) && ScoredRow(WithTotal(c), src, rEdges, fEdges)
  {
  }

  lemma PositiveOnlyKeepsAggregated(t: RfmTable)
    requires Aggregated(t)
    ensures PositiveOnly(t) == t
  {
    assert forall u :: u in t ==> u in PositiveOnly(t);
  }

  /** The intermediate tables of a successful scoring. */
  lemma SuccessfulSteps(t: RfmTable, qcut: map<int, int> -> seq<real>) returns (t1: RfmTable, t2: RfmTable, t3: RfmTable)
    requires PositiveOnly(t) == t
    requires Scored(t, qcut).failed.None?
    ensures ScoreStep(t, RColumn, qcut, true) == Some(t1)
    ensures ScoreStep(t1, FColumn, qcut, false) == Some(t2)
    ensures ScoreStep(t2, MColumn, qcut, false) == Some(t3)
    ensures Scored(t, qcut).table == WithTotals(t3)
  {
    assert Scored(t, qcut) == ScoreFromR(t, qcut);
    var o1 := ScoreStep(t, RColumn, qcut, true);
    assert o1.Some?;
    t1 := o1.value;
    assert ScoreFromR(t, qcut) == ScoreFromF(t1, qcut);
    var o2 := ScoreStep(t1, FColumn, qcut, false);
    assert o2.Some?;
    t2 := o2.value;
    assert ScoreFromF(t1, qcut) == ScoreFromM(t2, qcut);
    var o3 := ScoreStep(t2, MColumn, qcut, false);
    assert o3.Some?;
    t3 := o3.value;
  }

  /** Scoring never adds or drops a user beyond the positivity filter. */
  lemma ScoredKeys(t: RfmTable, qcut: map<int, int> -> seq<real>)
    ensures Scored(t, qcut).table.Keys == PositiveOnly(t).Keys
  {
    var t0 := PositiveOnly(t);
    var o1 := ScoreStep(t0, RColumn, qcut, true);
    if o1.Some? {
      var o2 := ScoreStep(o1.value, FColumn, qcut, false);
      assert ScoreFromR(t0, qcut) == ScoreFromF(o1.value, qcut);
      if o2.Some? {
        assert ScoreFromF(o1.value, qcut) == ScoreFromM(o2.value, qcut);
      }
    }
  }

  /** Successful scoring found a bin for every R and every F value. */
  lemma SuccessNeedsBins(t: RfmTable, qcut: map<int, int> -> seq<real>)
    requires Aggregated(t)
    requires Scored(t, qcut).failed.None?
    ensures forall u :: u in t ==>
              Bin(t[u].r, qcut(Values(t, RColumn))).Some? && Bin(t[u].f, qcut(Values(t, FColumn))).Some?
  {
    PositiveOnlyKeepsAggregated(t);
    var t1, t2, t3 := SuccessfulSteps(t, qcut);
    ScoreStepKeepsValues(t, RColumn, qcut, true, FColumn);
  }

  /** A bin for every R and every F value makes all three steps succeed. */
  lemma BinsGiveSuccess(t: RfmTable, qcut: map<int, int> -> seq<real>)
    requires Aggregated(t)
    requires forall u :: u in t ==>
               Bin(t[u].r, qcut(Values(t, RColumn))).Some? && Bin(t[u].f, qcut(Values(t, FColumn))).Some?
    ensures Scored(t, qcut).failed.None?
  {
    PositiveOnlyKeepsAggregated(t);
    assert Scored(t, qcut) == ScoreFromR(t, qcut);
    var o1 := ScoreStep(t, RColumn, qcut, true);
    assert o1.Some?;
    var t1 := o1.value;
    assert ScoreFromR(t, qcut) == ScoreFromF(t1, qcut);
    ScoreStepKeepsValues(t, RColumn, qcut, true, FColumn);
    ScoreStepKeepsValues(t, RColumn, qcut, true, MColumn);
    var o2 := ScoreStep(t1, FColumn, qcut, false);
    assert o2.Some?;
    var t2 := o2.value;
    assert ScoreFromF(t1, qcut) == ScoreFromM(t2, qcut);
    ScoreStepKeepsValues(t1, FColumn, qcut, false, MColumn);
    AggregatedColumns(t);
    assert forall u :: u in t2 ==> ValueOf(t2[u], MColumn) == t[u].f;
    assert ScoreStep(t2, MColumn, qcut, false).Some?;
  }

  /** On an aggregated table, scoring keeps every user and fails exactly when some R or F value
      falls in no bin. */
  lemma ScoredFailure(t: RfmTable, qcut: map<int, int> -> seq<real>)
    requires Aggregated(t)
    ensures Scored(t, qcut).table.Keys == t.Keys
    ensures Scored(t, qcut).failed.None? <==>
              forall u :: u in t ==>
                Bin(t[u].r, qcut(Values(t, RColumn))).Some? && Bin(t[u].f, qcut(Values(t, FColumn))).Some?
  {
    PositiveOnlyKeepsAggregated(t);
    ScoredKeys(t, qcut);
    if Scored(t, qcut).failed.None? {
      SuccessNeedsBins(t, qcut);
    }
    if forall u :: u in t ==>
         Bin(t[u].r, qcut(Values(t, RColumn))).Some? && Bin(t[u].f, qcut(Values(t, FColumn))).Some? {
      BinsGiveSuccess(t, qcut);
    }
  }

  /** On success every user keeps R, F and M, gets the reversed R label and the plain F and M
      labels of the F column's edges (so F_score = M_score), and RFM_total is the sum of the
      three scores. */
  lemma ScoredRows(t: RfmTable, qcut: map<int, int> -> seq<real>)
    requires Aggregated(t)
    requires Scored(t, qcut).failed.None?
    ensures forall u :: u in t ==>
              ScoredRow(Scored(t, qcut).table[u], t[u], qcut(Values(t, RColumn)), qcut(Values(t, FColumn)))
  {
    PositiveOnlyKeepsAggregated(t);
    var t1, t2, t3 := SuccessfulSteps(t, qcut);
    AggregatedColumns(t);
    ScoreStepKeepsValues(t, RColumn, qcut, true, MColumn);
    ScoreStepKeepsValues(t1, FColumn, qcut, false, MColumn);
    ScoreStepKeepsValues(t, RColumn, qcut, true, FColumn);
    forall u | u in t
      ensures ScoredRow(WithTotals(t3)[u], t[u], qcut(Values(t, RColumn)), qcut(Values(t, FColumn)))
    {
      ChainedRow(t, qcut, t1, t2, t3, u);
    }
  }

  /** One user through the three successful steps. */
  lemma ChainedRow(t: RfmTable, qcut: map<int, int> -> seq<real>, t1: RfmTable, t2: RfmTable, t3: RfmTable, u: int)
    requires Aggregated(t) && u in t
    requires ScoreStep(t, RColumn, qcut, true) == Some(t1)
    requires ScoreStep(t1, FColumn, qcut, false) == Some(t2)
    requires ScoreStep(t2, MColumn, qcut, false) == Some(t3)
    requires Values(t1, FColumn) == Values(t, FColumn) && Values(t2, MColumn) == Values(t, FColumn)
    ensures u in t3 && ScoredRow(WithTotals(t3)[u], t[u], qcut(Values(t, RColumn)), qcut(Values(t, FColumn)))
  {
    var rEdges, fEdges := qcut(Values(t, RColumn)), qcut(Values(t, FColumn));
    var a, b, c := t1[u], t2[u], t3[u];
    assert a == SetScore(t[u], RColumn, Score(t[u].r, rEdges, true).value);
    assert a.f == t[u].f && a.m == t[u].m;
    assert b == SetScore(a, FColumn, Score(t[u].f, fEdges, false).value);
    assert b.m == t[u].m;
    assert c == SetScore(b, MColumn, Score(t[u].m, fEdges, false).value);
    RowAfterSteps(t[u], a, b, c, rEdges, fEdges);
  }

  /** On an aggregated table the positivity filter keeps every row; scoring fails exactly when
      some R or F value falls in no bin; on success every row is scored as `ScoredRow` says. */
  lemma ScoredSpec(t: RfmTable, qcut: map<int, int> -> seq<real>)
    requires Aggregated(t)
    ensures PositiveOnly(t) == t
    ensures Scored(t, qcut).table.Keys == t.Keys
    ensures Scored(t, qcut).failed.None? <==>
              forall u :: u in t ==>
                Bin(t[u].r, qcut(Values(t, RColumn))).Some? && Bin(t[u].f, qcut(Values(t, FColumn))).Some?
    ensures Scored(t, qcut).failed.None? ==>
              forall u :: u in t ==>
                ScoredRow(Scored(t, qcut).table[u], t[u], qcut(Values(t, RColumn)), qcut(Values(t, FColumn)))
  {
    PositiveOnlyKeepsAggregated(t);
    ScoredFailure(t, qcut);
    if Scored(t, qcut).failed.None? {
      ScoredRows(t, qcut);
    }
  }

  /** Across users of a successfully scored table: a larger R never gets a higher R score, a
      larger F never gets a lower F score, and a larger M never gets a lower M score. */
  lemma ScoresMonotone(t: RfmTable, qcut: map<int, int> -> seq<real>, u: int, v: int)
    requires Aggregated(t)
    requires QcutEdges(qcut(Values(t, RColumn))) && QcutEdges(qcut(Values(t, FColumn)))
    requires Scored(t, qcut).failed.None? && u in t && v in t
    ensures var s := Scored(t, qcut).table;
            u in s && v in s && HasScores(s[u]) && HasScores(s[v])
    ensures var s := Scored(t, qcut).table;
            && (t[u].r <= t[v].r ==> s[u].rScore.value >= s[v].rScore.value)
            && (t[u].f <= t[v].f ==> s[u].fScore.value <= s[v].fScore.value)
            && (t[u].m <= t[v].m ==> s[u].mScore.value <= s[v].mScore.value)
  {
    var rEdges := qcut(Values(t, RColumn));
    var fEdges := qcut(Values(t, FColumn));
    var s := Scored(t, qcut).table;
    assert u in s && v in s && ScoredRow(s[u], t[u], rEdges, fEdges) && ScoredRow(s[v], t[v], rEdges, fEdges) by {
      ScoredSpec(t, qcut);
    }
    ScoreSpec(t[u].r, t[v].r, rEdges);
    ScoreSpec(t[u].f, t[v].f, fEdges);
    ScoreSpec(t[u].m, t[v].m, fEdges);
  }

  /** Scores of a successfully scored table lie in 1..n for each column's realised bin count
      n <= 5, so the total lies in 3..15. */
  lemma ScoresBounded(t: RfmTable, qcut: map<int, int> -> seq<real>, u: int)
    requires Aggregated(t)
    requires QcutEdges(qcut(Values(t, RColumn))) && QcutEdges(qcut(Values(t, FColumn)))
    requires Scored(t, qcut).failed.None? && u in t
    ensures u in Scored(t, qcut).table && HasScores(Scored(t, qcut).table[u])
    ensures Scored(t, qcut).table[u].total.Some?
    ensures var row := Scored(t, qcut).table[u];
            && 1 <= row.rScore.value <= |qcut(Values(t, RColumn))| - 1 <= 5
            && 1 <= row.fScore.value <= |qcut(Values(t, FColumn))| - 1 <= 5
            && row.fScore == row.mScore
            && 3 <= row.total.value <= 15
  {
    var rEdges := qcut(Values(t, RColumn));
    var fEdges := qcut(Values(t, FColumn));
    var row := Scored(t, qcut).table[u];
    assert u in Scored(t, qcut).table && ScoredRow(row, t[u], rEdges, fEdges) by {
      ScoredSpec(t, qcut);
    }
    ScoreSpec(t[u].r, t[u].r, rEdges);
    ScoreSpec(t[u].f, t[u].f, fEdges);
  }

  // ---------------------------------------------------------------------------
  // Segmentation

  function SegmentName(s: Segment): string
  {
    match s
    case HighValue => "高价值用户"
    case Potential => "潜力用户"
    case Newcomer => "新用户"
    case LapsedHighValue => "流失高价值用户"
    case Ordinary => "一般用户"
  }

  /** The ordered if/elif chain on one row's three scores; the first rule that holds wins. */
  function RfmSegment(r: int, f: int, m: int): (s: Segment)
  {
    if r >= 3 && f >= 3 && m >= 3 then HighValue
    else if r >= 3 && f >= 2 && m >= 2 then Potential
    else if r >= 3 && f <= 2 then Newcomer
    else if r <= 2 && f >= 3 && m >= 3 then LapsedHighValue
    else Ordinary
  }

  /** A threshold on one score. */
  datatype Bound = AtLeast(k: int) | AtMost(k: int) | AnyScore

  predicate Meets(score: int, b: Bound)
  {
    match b
    case AtLeast(k) => score >= k
    case AtMost(k) => score <= k
    case AnyScore => true
  }

  datatype Rule = Rule(r: Bound, f: Bound, m: Bound, segment: Segment)

  /** The segmentation rules as an ordered table; the last one is the catch-all. */
  const SEGMENT_RULES: seq<Rule> := [
    Rule(AtLeast(3), AtLeast(3), AtLeast(3), HighValue),
    Rule(AtLeast(3), AtLeast(2), AtLeast(2), Potential),
    Rule(AtLeast(3), AtMost(2), AnyScore, Newcomer),
    Rule(AtMost(2), AtLeast(3), AtLeast(3), LapsedHighValue),
    Rule(AnyScore, AnyScore, AnyScore, Ordinary)
  ]

  /** The label of the first rule whose three thresholds all hold. */
  function FirstMatch(rules: seq<Rule>, r: int, f: int, m: int): Option<Segment>
    decreases |rules|
  {
    if |rules| == 0 then None
    else if Meets(r, rules[0].r) && Meets(f, rules[0].f) && Meets(m, rules[0].m) then Some(rules[0].segment)
    else FirstMatch(rules[1..], r, f, m)
  }

  /** The if/elif chain is first-match evaluation of the rule table: every score triple is
      matched, and receives the label of exactly the first rule it satisfies. */
  lemma SegmentIsFirstMatch(r: int, f: int, m: int)
    ensures FirstMatch(SEGMENT_RULES, r, f, m) == Some(RfmSegment(r, f, m))
  {
    var rules := SEGMENT_RULES;
    assert rules[1..][1..][1..][1..][1..] == [];
  }

  /** Each label as a decision on the three scores; the five conditions are mutually exclusive
      and together cover every triple. */
  lemma SegmentDecisionTable(r: int, f: int, m: int)
    ensures RfmSegment(r, f, m) == HighValue <==> r >= 3 && f >= 3 && m >= 3
    ensures RfmSegment(r, f, m) == Potential <==> r >= 3 && f >= 2 && m >= 2 && !(f >= 3 && m >= 3)
    ensures RfmSegment(r, f, m) == Newcomer <==> r >= 3 && f <= 2 && !(f == 2 && m >= 2)
    ensures RfmSegment(r, f, m) == LapsedHighValue <==> r <= 2 && f >= 3 && m >= 3
    ensures RfmSegment(r, f, m) == Ordinary <==>
              !(r >= 3 && f >= 2 && m >= 2) && !(r >= 3 && f <= 2) && !(r <= 2 && f >= 3 && m >= 3)
  {
  }

  /** With the fixed thresholds, a frequency score collapsed to a single bin leaves only the
      new-user and ordinary labels reachable. */
  lemma SingleFrequencyBin(r: int, m: int)
    ensures RfmSegment(r, 1, m) in {Newcomer, Ordinary}
    ensures r >= 3 ==> RfmSegment(r, 1, m) == Newcomer
  {
  }

  /** The five segment names are distinct, and each is given exactly on its rule's condition. */
  lemma SegmentNames(r: int, f: int, m: int)
    ensures forall s1: Segment, s2: Segment :: s1 != s2 ==> SegmentName(s1) != SegmentName(s2)
    ensures SegmentName(RfmSegment(r, f, m)) == "高价值用户" <==> r >= 3 && f >= 3 && m >= 3
    ensures SegmentName(RfmSegment(r, f, m)) == "潜力用户" <==>
              r >= 3 && f >= 2 && m >= 2 && !(f >= 3 && m >= 3)
    ensures SegmentName(RfmSegment(r, f, m)) == "新用户" <==> r >= 3 && f <= 2 && !(f == 2 && m >= 2)
    ensures SegmentName(RfmSegment(r, f, m)) == "流失高价值用户" <==> r <= 2 && f >= 3 && m >= 3
    ensures SegmentName(RfmSegment(r, f, m)) == "一般用户" <==>
              !(r >= 3 && f >= 2 && m >= 2) && !(r >= 3 && f <= 2) && !(r <= 2 && f >= 3 && m >= 3)
  {
    SegmentDecisionTable(r, f, m);
  }

  /** Add the segment column; None when a row lacks a score column (a missing-column error). */
  function Segmented(t: RfmTable): (s: Option<RfmTable>)
    ensures s.Some? <==> forall u :: u in t ==> HasScores(t[u])
    ensures s.Some? ==> s.value.Keys == t.Keys
    ensures s.Some? ==> forall u :: u in t ==>
              s.value[u].(segment := t[u].segment) == t[u] &&
              s.value[u].segment == Some(RfmSegment(t[u].rScore.value, t[u].fScore.value, t[u].mScore.value))
  {
    if forall u :: u in t ==> HasScores(t[u])
    then Some(map u | u in t :: t[u].(segment := Some(RfmSegment(t[u].rScore.value, t[u].fScore.value, t[u].mScore.value))))
    else None
  }

  lemma ScoredRowIgnoresSegment(row: RfmRow, seg: Option<Segment>, src: RfmRow, rEdges: seq<real>, fEdges: seq<real>)
    requires ScoredRow(row, src, rEdges, fEdges)
    ensures ScoredRow(row.(segment := seg), src, rEdges, fEdges)
  {
  }

  /** The three stages end to end on cleaned rows: when scoring succeeds, segmentation succeeds;
      each purchasing user, and no one else, ends with a scored row whose segment is the
      first-match label of its own scores. */
  lemma RfmPipelineSpec(rows: seq<Event>, qcut: map<int, int> -> seq<real>)
    requires Dated(rows)
    requires Scored(RfmTableOf(rows), qcut).failed.None?
    ensures Segmented(Scored(RfmTableOf(rows), qcut).table).Some?
    ensures var s := Segmented(Scored(RfmTableOf(rows), qcut).table).value;
            forall u :: u in s <==> exists i :: 0 <= i < |rows| && PurchaseOf(rows[i], u)
    ensures var t := RfmTableOf(rows);
            var s := Segmented(Scored(t, qcut).table).value;
            forall u :: u in s ==>
              u in t && HasScores(s[u]) && ScoredRow(s[u], t[u], qcut(Values(t, RColumn)), qcut(Values(t, FColumn)))
    ensures var s := Segmented(Scored(RfmTableOf(rows), qcut).table).value;
            forall u :: u in s ==>
              s[u].segment == FirstMatch(SEGMENT_RULES, s[u].rScore.value, s[u].fScore.value, s[u].mScore.value)
  {
    var t := RfmTableOf(rows);
    var sc := Scored(t, qcut).table;
    var rEdges, fEdges := qcut(Values(t, RColumn)), qcut(Values(t, FColumn));
    assert sc.Keys == t.Keys && forall u :: u in t ==> ScoredRow(sc[u], t[u], rEdges, fEdges) by {
      AggregatedFromRows(rows);
      ScoredFailure(t, qcut);
      ScoredRows(t, qcut);
    }
    assert forall u :: u in t <==> exists i :: 0 <= i < |rows| && PurchaseOf(rows[i], u) by {
      RfmTableSpec(rows);
    }
    assert forall u :: u in sc ==> HasScores(sc[u]);
    var s := Segmented(sc).value;
    forall u | u in s
      ensures ScoredRow(s[u], t[u], rEdges, fEdges)
      ensures s[u].segment == FirstMatch(SEGMENT_RULES, s[u].rScore.value, s[u].fScore.value, s[u].mScore.value)
    {
      var seg := RfmSegment(sc[u].rScore.value, sc[u].fScore.value, sc[u].mScore.value);
      assert s[u] == sc[u].(segment := Some(seg));
      ScoredRowIgnoresSegment(sc[u], Some(seg), t[u], rEdges, fEdges);
      SegmentIsFirstMatch(sc[u].rScore.value, sc[u].fScore.value, sc[u].mScore.value);
    }
  }

  // ---------------------------------------------------------------------------
  // Score columns at table level

  const ALL_SCORES: set<Column> := {RColumn, FColumn, MColumn}

  /** The score columns a scoring run assigns before it stops at `failed`: all three when it
      completes, otherwise those before the failed one in the order R, F, M. */
  function ColumnsBefore(failed: Option<Column>): (cols: set<Column>)
    ensures failed.None? <==> cols == ALL_SCORES
    ensures failed.Some? ==> failed.value !in cols
  {
    match failed
    case None => ALL_SCORES
    case Some(RColumn) => {}
    case Some(FColumn) => {RColumn}
    case Some(MColumn) => {RColumn, FColumn}
  }

  lemma ColumnsBeforeCases()
    ensures ColumnsBefore(Some(RColumn)) == {}
    ensures ColumnsBefore(Some(FColumn)) == {RColumn}
    ensures ColumnsBefore(Some(MColumn)) == {RColumn, FColumn}
    ensures ColumnsBefore(None) == ALL_SCORES
  {
  }

  /** The row has a score cell in exactly the columns `cols`. */
  predicate RowColumns(row: RfmRow, cols: set<Column>)
  {
    && (row.rScore.Some? <==> RColumn in cols)
    && (row.fScore.Some? <==> FColumn in cols)
    && (row.mScore.Some? <==> MColumn in cols)
  }

  /** The table has exactly the score columns `cols`: every row has a cell in those and in no
      other. */
  ghost predicate ColumnsPresent(t: RfmTable, cols: set<Column>)
  {
    forall u :: u in t ==> RowColumns(t[u], cols)
  }

  /** A fresh aggregation has no score column. */
  lemma AggregatedHasNoScores(rows: seq<Event>)
    requires Dated(rows)
    ensures ColumnsPresent(RfmTableOf(rows), {})
  {
    forall u | u in RfmTableOf(rows)
      ensures RowColumns(RfmTableOf(rows)[u], {})
    {
      assert RfmTableOf(rows)[u] == UserRfm(rows, u);
    }
  }

  /** Filtering rows keeps the columns. */
  lemma PositiveOnlyKeepsColumns(t: RfmTable, cols: set<Column>)
    requires ColumnsPresent(t, cols)
    ensures ColumnsPresent(PositiveOnly(t), cols)
  {
    forall u | u in PositiveOnly(t)
      ensures PositiveOnly(t)[u] == t[u]
    {
    }
  }

  /** A successful column step adds exactly its own column. */
  lemma ScoreStepAddsColumn(t: RfmTable, c: Column, qcut: map<int, int> -> seq<real>, reversed: bool, cols: set<Column>)
    requires ColumnsPresent(t, cols)
    requires ScoreStep(t, c, qcut, reversed).Some?
    ensures ColumnsPresent(ScoreStep(t, c, qcut, reversed).value, cols + {c})
  {
    var t' := ScoreStep(t, c, qcut, reversed).value;
    forall u | u in t'
      ensures RowColumns(t'[u], cols + {c})
    {
      assert u in t && RowColumns(t[u], cols);
    }
  }

  /** Adding the total keeps the columns. */
  lemma WithTotalsKeepsColumns(t: RfmTable, cols: set<Column>)
    requires ColumnsPresent(t, cols)
    ensures ColumnsPresent(WithTotals(t), cols)
  {
    forall u | u in WithTotals(t)
      ensures RowColumns(WithTotals(t)[u], cols)
    {
      assert RowColumns(t[u], cols);
    }
  }

  /** Scoring adds the columns assigned before it stops, and keeps the ones it had. */
  lemma ScoredColumns(t: RfmTable, qcut: map<int, int> -> seq<real>, cols: set<Column>)
    requires ColumnsPresent(t, cols)
    ensures ColumnsPresent(Scored(t, qcut).table, cols + ColumnsBefore(Scored(t, qcut).failed))
  {
    PositiveOnlyKeepsColumns(t, cols);
    ColumnsFromR(PositiveOnly(t), qcut, cols);
  }

  lemma ColumnsFromR(t0: RfmTable, qcut: map<int, int> -> seq<real>, cols: set<Column>)
    requires ColumnsPresent(t0, cols)
    ensures ColumnsPresent(ScoreFromR(t0, qcut).table, cols + ColumnsBefore(ScoreFromR(t0, qcut).failed))
  {
    var o1 := ScoreStep(t0, RColumn, qcut, true);
    if o1.None? {
      assert cols + ColumnsBefore(Some(RColumn)) == cols;
    } else {
      ScoreStepAddsColumn(t0, RColumn, qcut, true, cols);
      ColumnsFromF(o1.value, qcut, cols);
    }
  }

  lemma ColumnsFromF(t1: RfmTable, qcut: map<int, int> -> seq<real>, cols: set<Column>)
    requires ColumnsPresent(t1, cols + {RColumn})
    ensures ColumnsPresent(ScoreFromF(t1, qcut).table, cols + ColumnsBefore(ScoreFromF(t1, qcut).failed))
  {
    var o2 := ScoreStep(t1, FColumn, qcut, false);
    if o2.None? {
      assert cols + ColumnsBefore(Some(FColumn)) == cols + {RColumn};
    } else {
      ScoreStepAddsColumn(t1, FColumn, qcut, false, cols + {RColumn});
      assert cols + {RColumn} + {FColumn} == cols + {RColumn, FColumn};
      ColumnsFromM(o2.value, qcut, cols);
    }
  }

  lemma ColumnsFromM(t2: RfmTable, qcut: map<int, int> -> seq<real>, cols: set<Column>)
    requires ColumnsPresent(t2, cols + {RColumn, FColumn})
    ensures ColumnsPresent(ScoreFromM(t2, qcut).table, cols + ColumnsBefore(ScoreFromM(t2, qcut).failed))
  {
    var o3 := ScoreStep(t2, MColumn, qcut, false);
    if o3.None? {
      assert cols + ColumnsBefore(Some(MColumn)) == cols + {RColumn, FColumn};
    } else {
      ScoreStepAddsColumn(t2, MColumn, qcut, false, cols + {RColumn, FColumn});
      assert cols + {RColumn, FColumn} + {MColumn} == cols + ColumnsBefore(None);
      WithTotalsKeepsColumns(o3.value, cols + ColumnsBefore(None));
    }
  }

  /** With all three score columns present, segmentation succeeds and keeps the columns. */
  lemma SegmentedWithAllColumns(t: RfmTable)
    requires ColumnsPresent(t, ALL_SCORES)
    ensures Segmented(t).Some?
    ensures ColumnsPresent(Segmented(t).value, ALL_SCORES)
  {
    forall u | u in t
      ensures HasScores(t[u])
    {
      assert RowColumns(t[u], ALL_SCORES);
    }
    var s := Segmented(t).value;
    forall u | u in s
      ensures RowColumns(s[u], ALL_SCORES)
    {
      assert s[u].(segment := t[u].segment) == t[u] && RowColumns(t[u], ALL_SCORES);
    }
  }

  /** On a table with at least one row `u`, the row-level test of segmentation agrees with the
      table-level one: it fails exactly when a score column is missing. */
  lemma SegmentedNeedsAllColumns(t: RfmTable, cols: set<Column>, u: int)
    requires ColumnsPresent(t, cols) && u in t
    ensures Segmented(t).Some? <==> ALL_SCORES <= cols
  {
    assert RowColumns(t[u], cols);
    if ALL_SCORES <= cols {
      forall v | v in t
        ensures HasScores(t[v])
      {
        assert RowColumns(t[v], cols);
      }
    }
  }
}
