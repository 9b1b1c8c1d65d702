/** The cleaner object: it holds the frame being cleaned and the final frame, and its step
    methods reassign them in the fixed order of `Clean`. */
module DataClean {
  import opened Events
  import opened Seqs
  import opened Cleaning

  class DataCleaner {
    const rawDf: seq<RawRow>
    /** The frame of steps 1-4; None until cleaning starts. */
    var cleanedDf: Option<seq<Event>>
    /** The relabelled and validated frame of steps 5-6; None until step 5 has run. */
    var cleanedDfFinal: Option<seq<Event>>
    /** The two anomaly counters. The cleaning steps only report their counts and never update these. */
    var purchaseGtClick: nat
    var noClickBeforePurchase: nat

    constructor (df: seq<RawRow>)
      ensures rawDf == df && cleanedDf == None && cleanedDfFinal == None
      ensures purchaseGtClick == 0 && noClickBeforePurchase == 0
    {
      rawDf := df;
      cleanedDf := None;
      cleanedDfFinal := None;
      purchaseGtClick := 0;
      noClickBeforePurchase := 0;
    }

    /** Run the six steps in order and return the final frame. None stands for the conversion
        error that aborts the run at step 3; the frame then stays as step 2 left it. */
    method Clean() returns (result: Option<seq<Event>>)
      modifies this
      ensures result == CleanPipeline(rawDf)
      ensures result.Some? ==> cleanedDfFinal == result
      ensures result.Some? ==> cleanedDf == Some(Window(StampAll(Dedup(DropMissing(rawDf)))))
      ensures result.None? ==> cleanedDf == Some(Dedup(DropMissing(rawDf)))
      ensures result.None? ==> cleanedDfFinal == old(cleanedDfFinal)
      ensures purchaseGtClick == old(purchaseGtClick) && noClickBeforePurchase == old(noClickBeforePurchase)
    {
      HandleMissingValues();
      HandleDuplicates();
      var ok := ProcessTimestamps();
      if !ok {
        return None;
      }
      HandleOutliers();
      ConvertBehaviorType();
      var removed, flagged := ValidateBehaviorLogic();
      result := cleanedDfFinal;
    }

    /** Step 1: drop rows with a missing cell, when there is any; otherwise keep the frame.
        The working frame starts as the raw frame, so this step reads `rawDf` and also stands
        for the copy `Clean` makes before it. */
    method HandleMissingValues()
      modifies this`cleanedDf
      ensures cleanedDf == Some(DropMissing(rawDf))
    {
      var raw := rawDf;
      if MissingCellCount(raw) > 0 {
        cleanedDf := Some(DropMissing(raw));
      } else {
        NoMissingKeepsAll(raw);
        var rows := seq(|raw|, i requires 0 <= i < |raw| => ToEvent(raw[i]));
        assert rows == DropMissing(raw);
        cleanedDf := Some(rows);
      }
    }

    /** Step 2: drop exact duplicates keeping the first, when there is any; otherwise keep the frame. */
    method HandleDuplicates()
      requires cleanedDf.Some?
      modifies this`cleanedDf
      ensures cleanedDf == Some(Dedup(old(cleanedDf).value))
    {
      var rows := cleanedDf.value;
      if DuplicateCount(rows) > 0 {
        cleanedDf := Some(Dedup(rows));
      } else {
        DedupOfDistinct(rows);
      }
    }

    /** Step 3: add date, hour and weekday; fails, changing nothing, when a timestamp is out of range. */
    method ProcessTimestamps() returns (ok: bool)
      requires cleanedDf.Some?
      modifies this`cleanedDf
      ensures ok == Convertible(old(cleanedDf).value)
      ensures cleanedDf == if ok then Some(StampAll(old(cleanedDf).value)) else old(cleanedDf)
    {
      var rows := cleanedDf.value;
      ok := Convertible(rows);
      if ok {
        cleanedDf := Some(StampAll(rows));
      }
    }

    /** Step 4: keep the rows of the analysis window. */
    method HandleOutliers()
      requires cleanedDf.Some?
      modifies this`cleanedDf
      ensures cleanedDf == Some(Window(old(cleanedDf).value))
    {
      cleanedDf := Some(Window(cleanedDf.value));
    }

    /** Step 5: the final frame is a copy of the cleaned frame with the behaviour column added. */
    method ConvertBehaviorType()
      requires cleanedDf.Some?
      modifies this`cleanedDfFinal
      ensures cleanedDfFinal == Some(Relabel(cleanedDf.value))
    {
      cleanedDfFinal := Some(Relabel(cleanedDf.value));
    }

    /** Step 6: delete the purchases without an earlier click and report how many were deleted;
        then report how many categories have more purchases than clicks, deleting nothing. */
    method ValidateBehaviorLogic() returns (removed: nat, flagged: nat)
      requires cleanedDfFinal.Some?
      modifies this`cleanedDfFinal
      ensures cleanedDfFinal == Some(Validate(old(cleanedDfFinal).value))
      ensures removed == |old(cleanedDfFinal).value| - |cleanedDfFinal.value|
      ensures removed == Count(old(cleanedDfFinal).value, ViolatesIn(old(cleanedDfFinal).value))
      ensures flagged == |ProblemCategories(cleanedDfFinal.value)|
    {
      var rows := cleanedDfFinal.value;
      ValidateSpec(rows);
      removed := 0;
      if Count(rows, IsPurchase) > 0 {
        var violating := Count(rows, ViolatesIn(rows));
        if violating > 0 {
          cleanedDfFinal := Some(Validate(rows));
          removed := violating;
        } else {
          NoViolationKeepsAll(rows);
        }
      } else {
        forall i | 0 <= i < |rows|
          ensures !ViolatesIn(rows)(rows[i])
        {
          if IsPurchase(rows[i]) {
            CountPositive(rows, IsPurchase, i);
          }
        }
        CountZero(rows, ViolatesIn(rows));
        NoViolationKeepsAll(rows);
      }
      flagged := |ProblemCategories(cleanedDfFinal.value)|;
    }
  }
}
