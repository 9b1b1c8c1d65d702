/** The six cleaning steps as functions on row sequences, with what each one guarantees. */
module Cleaning {
  import opened Events
  import opened Seqs

  // ---------------------------------------------------------------------------
  // Step 1: rows with a missing cell

  predicate Complete(row: RawRow)
  {
    row.userId.Some? && row.productId.Some? && row.categoryId.Some? &&
    row.behaviorType.Some? && row.time.Some?
  }

  /** Number of missing cells of one row. */
  function MissingCells(row: RawRow): nat
  {
    (if row.userId.None? then 1 else 0) + (if row.productId.None? then 1 else 0) +
    (if row.categoryId.None? then 1 else 0) + (if row.behaviorType.None? then 1 else 0) +
    (if row.time.None? then 1 else 0)
  }

  /** Total number of missing cells: the sum of the per-column missing counts. */
  function MissingCellCount(raw: seq<RawRow>): nat
    decreases |raw|
  {
    if |raw| == 0 then 0 else MissingCells(raw[0]) + MissingCellCount(raw[1..])
  }

  /** A row without derived columns has not been stamped or relabelled yet. */
  predicate Underived(e: Event)
  {
    e.stamp.None? && e.behavior.None?
  }

  function ToEvent(row: RawRow): (e: Event)
    requires Complete(row)
    ensures Underived(e)
  {
    Event(row.userId.value, row.productId.value, row.categoryId.value,
          row.behaviorType.value, row.time.value, None, None)
  }

  /** The raw row an event was read from (its five source columns). */
  function Lift(e: Event): (row: RawRow)
    ensures Complete(row)
  {
    RawRow(Some(e.userId), Some(e.productId), Some(e.categoryId), Some(e.behaviorType), Some(e.time))
  }

  function Lifted(rows: seq<Event>): (r: seq<RawRow>)
    ensures |r| == |rows|
  {
    seq(|rows|, i requires 0 <= i < |rows| => Lift(rows[i]))
  }

  /** The five source columns of an event, with the derived columns dropped. */
  function Core(e: Event): (c: Event)
    ensures Underived(c)
  {
    e.(stamp := None, behavior := None)
  }

  /** Drop every row that has a missing cell. */
  function DropMissing(raw: seq<RawRow>): (r: seq<Event>)
    ensures |r| <= |raw|
    ensures forall i :: 0 <= i < |r| ==> Underived(r[i])
    decreases |raw|
  {
    if |raw| == 0 then []
    else (if Complete(raw[0]) then [ToEvent(raw[0])] else []) + DropMissing(raw[1..])
  }

  lemma {:induction false} DropMissingLifts(raw: seq<RawRow>)
    ensures Lifted(DropMissing(raw)) == Filter(raw, Complete)
    decreases |raw|
  {
    if |raw| > 0 {
      DropMissingLifts(raw[1..]);
      var head := if Complete(raw[0]) then [ToEvent(raw[0])] else [];
      assert DropMissing(raw) == head + DropMissing(raw[1..]);
      assert Lifted(head + DropMissing(raw[1..])) == Lifted(head) + Lifted(DropMissing(raw[1..]));
    }
  }

  /** After missing-value handling every surviving row is a fully populated raw row, every fully
      populated raw row survives, and the survivors keep their original order. */
  lemma HandleMissingValuesSpec(raw: seq<RawRow>)
    ensures forall e :: e in DropMissing(raw) ==> Lift(e) in raw && Underived(e)
    ensures forall i :: 0 <= i < |raw| && Complete(raw[i]) ==> ToEvent(raw[i]) in DropMissing(raw)
    ensures SubseqOf(Lifted(DropMissing(raw)), raw)
    ensures |DropMissing(raw)| == Count(raw, Complete)
  {
    var r := DropMissing(raw);
    DropMissingLifts(raw);
    FilterSpec(raw, Complete);
    forall e | e in r
      ensures Lift(e) in raw
    {
      var k :| 0 <= k < |r| && r[k] == e;
      assert Lifted(r)[k] == Lift(e);
    }
    forall i | 0 <= i < |raw| && Complete(raw[i])
      ensures ToEvent(raw[i]) in r
    {
      assert raw[i] in Lifted(r);
      var k :| 0 <= k < |r| && Lifted(r)[k] == raw[i];
      assert r[k] == ToEvent(raw[i]);
    }
  }

  lemma {:induction false} NoMissingCells(raw: seq<RawRow>)
    ensures MissingCellCount(raw) == 0 <==> forall i :: 0 <= i < |raw| ==> Complete(raw[i])
    decreases |raw|
  {
    if |raw| > 0 {
      NoMissingCells(raw[1..]);
      assert forall i :: 1 <= i < |raw| ==> raw[i] == raw[1..][i - 1];
    }
  }

  /** With no missing cell the frame is left as it is: every row survives, unchanged. */
  lemma {:induction false} NoMissingKeepsAll(raw: seq<RawRow>)
    requires MissingCellCount(raw) == 0
    ensures forall i :: 0 <= i < |raw| ==> Complete(raw[i])
    ensures |DropMissing(raw)| == |raw|
    ensures forall i :: 0 <= i < |raw| ==> DropMissing(raw)[i] == ToEvent(raw[i])
    decreases |raw|
  {
    NoMissingCells(raw);
    if |raw| > 0 {
      NoMissingCells(raw[1..]);
      NoMissingKeepsAll(raw[1..]);
      assert DropMissing(raw) == [ToEvent(raw[0])] + DropMissing(raw[1..]);
    }
  }

  // ---------------------------------------------------------------------------
  // Step 2: exact duplicates (Seqs.Dedup over whole rows)

  /** After duplicate handling no two rows are equal, every distinct row is kept once, in the
      order of its first occurrence, and the number removed is the duplicate count. */
  lemma HandleDuplicatesSpec(rows: seq<Event>)
    ensures Distinct(Dedup(rows))
    ensures forall e :: e in Dedup(rows) <==> e in rows
    ensures SubseqOf(Dedup(rows), rows)
    ensures forall i, j :: 0 <= i < j < |Dedup(rows)| ==>
              FirstIndex(rows, Dedup(rows)[i]) < FirstIndex(rows, Dedup(rows)[j])
    ensures |rows| - |Dedup(rows)| == DuplicateCount(rows)
    ensures DuplicateCount(rows) == 0 ==> Dedup(rows) == rows
  {
    DedupSpec(rows);
    if DuplicateCount(rows) == 0 {
      DedupOfDistinct(rows);
    }
  }

  // ---------------------------------------------------------------------------
  // Step 3: timestamps to calendar fields (UTC)

  const SECONDS_PER_DAY: int := 86400
  const SECONDS_PER_HOUR: int := 3600

  /** Whole seconds that a nanosecond-resolution datetime can represent
      (about 1677-09-21 to 2262-04-11); converting anything outside fails. */
  const MIN_CONVERTIBLE: int := -9223372036
  const MAX_CONVERTIBLE: int := 9223372036

  /** The day count of a proleptic Gregorian date relative to 1970-01-01. */
  function DaysFromCivil(y: int, m: int, d: int): int
    requires 1 <= m <= 12 && 1 <= d <= 31
  {
    var y' := if m <= 2 then y - 1 else y;
    var era := y' / 400;
    var yoe := y' - era * 400;
    var mp := if m > 2 then m - 3 else m + 9;
    var doy := (153 * mp + 2) / 5 + d - 1;
    var doe := yoe * 365 + yoe / 4 - yoe / 100 + doy;
    era * 146097 + doe - 719468
  }

  /** The date, hour and weekday of an epoch-seconds timestamp; 1970-01-01 was a Thursday. */
  function StampOf(t: int): (s: Stamp)
    ensures 0 <= s.hour <= 23 && 0 <= s.weekday <= 6
    ensures s.date * SECONDS_PER_DAY + s.hour * SECONDS_PER_HOUR <= t
    ensures t < s.date * SECONDS_PER_DAY + (s.hour + 1) * SECONDS_PER_HOUR
  {
    var day := t / SECONDS_PER_DAY;
    Stamp(day, (t % SECONDS_PER_DAY) / SECONDS_PER_HOUR, (day + 3) % 7)
  }

  /** One day later: the same hour, the next date and the next weekday (Sunday wraps to Monday). */
  lemma NextDay(t: int)
    ensures StampOf(t + SECONDS_PER_DAY).date == StampOf(t).date + 1
    ensures StampOf(t + SECONDS_PER_DAY).hour == StampOf(t).hour
    ensures StampOf(t + SECONDS_PER_DAY).weekday == (StampOf(t).weekday + 1) % 7
  {
  }

  /** The weekday depends on the date alone: two times on the same date share their weekday. */
  lemma SameDateSameWeekday(t1: int, t2: int)
    requires StampOf(t1).date == StampOf(t2).date
    ensures StampOf(t1).weekday == StampOf(t2).weekday
  {
  }

  predicate Convertible(rows: seq<Event>)
  {
    forall i :: 0 <= i < |rows| ==> MIN_CONVERTIBLE <= rows[i].time <= MAX_CONVERTIBLE
  }

  /** Add the date, hour and weekday columns; every other column is left as it was. */
  function StampAll(rows: seq<Event>): (r: seq<Event>)
    ensures |r| == |rows|
    ensures forall i :: 0 <= i < |r| ==> r[i].stamp == Some(StampOf(rows[i].time))
    ensures forall i :: 0 <= i < |r| ==> r[i].(stamp := rows[i].stamp) == rows[i]
  {
    seq(|rows|, i requires 0 <= i < |rows| => rows[i].(stamp := Some(StampOf(rows[i].time))))
  }

  // ---------------------------------------------------------------------------
  // Step 4: the fixed analysis window

  const WINDOW_START: int := DaysFromCivil(2017, 11, 25) * SECONDS_PER_DAY
  const WINDOW_END: int := DaysFromCivil(2017, 12, 4) * SECONDS_PER_DAY

  /** The window is [2017-11-25 00:00, 2017-12-04 00:00) UTC: nine days starting on a Saturday. */
  lemma WindowBounds()
    ensures WINDOW_START == 1511568000 && WINDOW_END == 1512345600
    ensures WINDOW_END - WINDOW_START == 9 * SECONDS_PER_DAY
    ensures StampOf(WINDOW_START).weekday == 5 && StampOf(WINDOW_START).hour == 0
  {
  }

  predicate InWindow(e: Event)
  {
    WINDOW_START <= e.time < WINDOW_END
  }

  function Window(rows: seq<Event>): (r: seq<Event>)
  {
    Filter(rows, InWindow)
  }

  /** After the outlier filter every row lies in the window, every input row inside the window
      is retained, nothing else is, and the order is preserved. */
  lemma HandleOutliersSpec(rows: seq<Event>)
    ensures forall e :: e in Window(rows) <==> e in rows && InWindow(e)
    ensures SubseqOf(Window(rows), rows)
    ensures |Window(rows)| == Count(rows, InWindow)
  {
    FilterSpec(rows, InWindow);
  }

  // ---------------------------------------------------------------------------
  // Step 5: behaviour codes to localised labels

  /** The label map pv -> 点击, buy -> 购买, cart -> 加购, fav -> 收藏; other codes are unmapped. */
  function Label(code: string): (b: Behavior)
  {
    if code == "pv" then Click
    else if code == "buy" then Purchase
    else if code == "cart" then Cart
    else if code == "fav" then Favorite
    else Unmapped
  }

  /** The raw code of a mapped label. */
  function Code(b: Behavior): (code: string)
    requires b != Unmapped
  {
    match b
    case Click => "pv"
    case Purchase => "buy"
    case Cart => "cart"
    case Favorite => "fav"
  }

  /** The text of a label as stored in the behaviour column. */
  function LabelText(b: Behavior): (text: string)
    requires b != Unmapped
  {
    match b
    case Click => "点击"
    case Purchase => "购买"
    case Cart => "加购"
    case Favorite => "收藏"
  }

  /** The label map is a bijection between the four codes and the four labels, which are the
      texts 点击, 购买, 加购 and 收藏. */
  lemma LabelRoundTrip(code: string, b: Behavior)
    ensures b != Unmapped ==> Label(Code(b)) == b
    ensures Label(code) != Unmapped ==> Code(Label(code)) == code
    ensures Label(code) == Unmapped <==> code !in {"pv", "buy", "cart", "fav"}
    ensures LabelText(Label("pv")) == "点击" && LabelText(Label("buy")) == "购买"
    ensures LabelText(Label("cart")) == "加购" && LabelText(Label("fav")) == "收藏"
    ensures forall b1: Behavior, b2: Behavior :: b1 != Unmapped && b2 != Unmapped && b1 != b2 ==>
              LabelText(b1) != LabelText(b2)
  {
  }

  /** Add the behaviour column; every other column is left as it was. */
  function Relabel(rows: seq<Event>): (r: seq<Event>)
    ensures |r| == |rows|
    ensures forall i :: 0 <= i < |r| ==> r[i].behavior == Some(Label(rows[i].behaviorType))
    ensures forall i :: 0 <= i < |r| ==> r[i].(behavior := rows[i].behavior) == rows[i]
  {
    seq(|rows|, i requires 0 <= i < |rows| => rows[i].(behavior := Some(Label(rows[i].behaviorType))))
  }

  // ---------------------------------------------------------------------------
  // Step 6a: purchases without an earlier click of the same user and product

  predicate IsClick(e: Event) { e.behavior == Some(Click) }
  predicate IsPurchase(e: Event) { e.behavior == Some(Purchase) }

  predicate ClickOf(e: Event, userId: int, productId: int)
  {
    IsClick(e) && e.userId == userId && e.productId == productId
  }

  /** The earliest click time of a (user, product) pair, if it was clicked at all. */
  function MinClickTime(rows: seq<Event>, userId: int, productId: int): (t: Option<int>)
    ensures t.None? ==> forall i :: 0 <= i < |rows| ==> !ClickOf(rows[i], userId, productId)
    ensures t.Some? ==> exists i :: 0 <= i < |rows| && ClickOf(rows[i], userId, productId) && rows[i].time == t.value
    ensures t.Some? ==> forall i :: 0 <= i < |rows| && ClickOf(rows[i], userId, productId) ==> t.value <= rows[i].time
    decreases |rows|
  {
    if |rows| == 0 then None
    else
      var rest := MinClickTime(rows[1..], userId, productId);
      assert forall i :: 1 <= i < |rows| ==> rows[i] == rows[1..][i - 1];
      if !ClickOf(rows[0], userId, productId) then rest
      else if rest.None? || rows[0].time <= rest.value then Some(rows[0].time)
      else rest
  }

  /** Some click of the same user and product at or before the event. */
  ghost predicate HasPriorClick(rows: seq<Event>, e: Event)
  {
    exists c :: c in rows && ClickOf(c, e.userId, e.productId) && c.time <= e.time
  }

  /** The check the source applies: no earliest click, or the earliest click is after the purchase. */
  function ViolatesIn(rows: seq<Event>): Event -> bool
  {
    (e: Event) => IsPurchase(e) &&
         var first := MinClickTime(rows, e.userId, e.productId);
         first.None? || first.value > e.time
  }

  function KeepIn(rows: seq<Event>): Event -> bool
  {
    (e: Event) => !ViolatesIn(rows)(e)
  }

  /** Delete every purchase that violates the click-before-purchase rule. */
  function Validate(rows: seq<Event>): (r: seq<Event>)
  {
    Filter(rows, KeepIn(rows))
  }

  /** The earliest-click test is the same as "no click at or before the purchase". */
  lemma ViolatesIff(rows: seq<Event>, e: Event)
    ensures ViolatesIn(rows)(e) <==> IsPurchase(e) && !HasPriorClick(rows, e)
  {
    var first := MinClickTime(rows, e.userId, e.productId);
    if HasPriorClick(rows, e) {
      var c :| c in rows && ClickOf(c, e.userId, e.productId) && c.time <= e.time;
      var k :| 0 <= k < |rows| && rows[k] == c;
      assert first.Some? && first.value <= e.time;
    }
    if first.Some? && first.value <= e.time {
      var k :| 0 <= k < |rows| && ClickOf(rows[k], e.userId, e.productId) && rows[k].time == first.value;
      assert rows[k] in rows;
    }
  }

  /** Validation removes only purchases, and exactly those with no click of the same user and
      product at or before them; every remaining purchase has such a click among the remaining
      rows; order is preserved; the reported count is the number of rows removed. */
  lemma ValidateSpec(rows: seq<Event>)
    ensures forall e :: e in Validate(rows) ==> e in rows
    ensures forall e :: e in rows && !IsPurchase(e) ==> e in Validate(rows)
    ensures forall e :: e in rows && IsPurchase(e) ==> (e in Validate(rows) <==> HasPriorClick(rows, e))
    ensures forall e :: e in Validate(rows) && IsPurchase(e) ==> HasPriorClick(Validate(rows), e)
    ensures SubseqOf(Validate(rows), rows)
    ensures |rows| - |Validate(rows)| == Count(rows, ViolatesIn(rows))
  {
    var r := Validate(rows);
    FilterSpec(rows, KeepIn(rows));
    FilterRemoved(rows, KeepIn(rows), ViolatesIn(rows));
    forall e | e in rows
      ensures e in r <==> !ViolatesIn(rows)(e)
    {
    }
    forall e | e in rows && IsPurchase(e)
      ensures e in r <==> HasPriorClick(rows, e)
    {
      ViolatesIff(rows, e);
    }
    forall e | e in r && IsPurchase(e)
      ensures HasPriorClick(r, e)
    {
      ViolatesIff(rows, e);
      var c :| c in rows && ClickOf(c, e.userId, e.productId) && c.time <= e.time;
      assert c in r;
    }
  }

  /** With nothing violating, validation leaves the frame as it is. */
  lemma NoViolationKeepsAll(rows: seq<Event>)
    requires Count(rows, ViolatesIn(rows)) == 0
    ensures Validate(rows) == rows
  {
    FilterSpec(rows, KeepIn(rows));
    FilterRemoved(rows, KeepIn(rows), ViolatesIn(rows));
    FilterKeepsAll(rows, KeepIn(rows));
  }

  /** Validating a validated frame finds no violations and changes nothing. */
  lemma ValidateIdempotent(rows: seq<Event>)
    ensures Count(Validate(rows), ViolatesIn(Validate(rows))) == 0
    ensures Validate(Validate(rows)) == Validate(rows)
  {
    var r := Validate(rows);
    ValidateSpec(rows);
    forall i | 0 <= i < |r|
      ensures !ViolatesIn(r)(r[i])
    {
      ViolatesIff(r, r[i]);
      assert r[i] in r;
    }
    CountZero(r, ViolatesIn(r));
    NoViolationKeepsAll(r);
  }

  // ---------------------------------------------------------------------------
  // Step 6b: categories with more purchases than clicks (reported, nothing removed)

  function InCategoryWith(categoryId: int, b: Behavior): Event -> bool
  {
    (e: Event) => e.categoryId == categoryId && e.behavior == Some(b)
  }

  function CountBehavior(rows: seq<Event>, categoryId: int, b: Behavior): nat
  {
    Count(rows, InCategoryWith(categoryId, b))
  }

  predicate IsProblemCategory(rows: seq<Event>, categoryId: int)
  {
    CountBehavior(rows, categoryId, Purchase) > CountBehavior(rows, categoryId, Click) &&
    CountBehavior(rows, categoryId, Click) > 0
  }

  /** The categories of the frame in which purchases outnumber clicks. */
  function ProblemCategories(rows: seq<Event>): set<int>
  {
    set i | 0 <= i < |rows| && IsProblemCategory(rows, rows[i].categoryId) :: rows[i].categoryId
  }

  /** A category is flagged exactly when its purchase count exceeds its click count and its
      click count is positive. */
  lemma ProblemCategoriesSpec(rows: seq<Event>, categoryId: int)
    ensures categoryId in ProblemCategories(rows) <==>
            CountBehavior(rows, categoryId, Purchase) > CountBehavior(rows, categoryId, Click) > 0
  {
    if IsProblemCategory(rows, categoryId) {
      CountWitness(rows, InCategoryWith(categoryId, Click));
      var i :| 0 <= i < |rows| && InCategoryWith(categoryId, Click)(rows[i]);
      assert rows[i].categoryId == categoryId;
    }
  }

  // ---------------------------------------------------------------------------
  // The whole pipeline

  /** The six steps in order; None when a timestamp cannot be converted. */
  function CleanPipeline(raw: seq<RawRow>): Option<seq<Event>>
  {
    var rows := Dedup(DropMissing(raw));
    if !Convertible(rows) then None
    else Some(Validate(Relabel(Window(StampAll(rows)))))
  }

  /** Stamping rows that differ keeps them different. */
  lemma StampAllDistinct(rows: seq<Event>)
    requires Distinct(rows)
    requires forall i :: 0 <= i < |rows| ==> Underived(rows[i])
    ensures Distinct(StampAll(rows))
  {
    var s := StampAll(rows);
    forall i, j | 0 <= i < j < |s|
      ensures s[i] != s[j]
    {
      assert s[i].(stamp := rows[i].stamp) == rows[i];
      assert s[j].(stamp := rows[j].stamp) == rows[j];
    }
  }

  /** Relabelling rows that differ keeps them different. */
  lemma RelabelDistinct(rows: seq<Event>)
    requires Distinct(rows)
    requires forall e :: e in rows ==> e.behavior.None?
    ensures Distinct(Relabel(rows))
  {
    var l := Relabel(rows);
    forall i, j | 0 <= i < j < |l|
      ensures l[i] != l[j]
    {
      assert l[i].(behavior := rows[i].behavior) == rows[i];
      assert l[j].(behavior := rows[j].behavior) == rows[j];
      assert rows[i] in rows && rows[j] in rows;
    }
  }

  /** What the derived columns of a relabelled, windowed, stamped row are, and where it came from. */
  lemma DerivedRowFacts(d: seq<Event>, e: Event)
    requires forall x :: x in d ==> Underived(x)
    requires e in Relabel(Window(StampAll(d)))
    ensures Core(e) in d && InWindow(e)
    ensures e.stamp == Some(StampOf(e.time))
    ensures e.behavior == Some(Label(e.behaviorType))
  {
    var s := StampAll(d);
    var w := Window(s);
    var l := Relabel(w);
    HandleOutliersSpec(s);
    var k :| 0 <= k < |l| && l[k] == e;
    assert l[k].(behavior := w[k].behavior) == w[k];
    assert w[k] in w;
    var j :| 0 <= j < |s| && s[j] == w[k];
    assert s[j].(stamp := d[j].stamp) == d[j];
    assert d[j] in d;
    assert Core(e) == d[j];
  }

  /** Every cleaned row is a raw row of the input, lies in the window, carries the calendar
      fields of its own time and the label of its own code, no row appears twice, and every
      purchase has a click of the same user and product at or before it. */
  lemma CleanPipelineSpec(raw: seq<RawRow>)
    ensures CleanPipeline(raw).None? <==> !Convertible(Dedup(DropMissing(raw)))
    ensures CleanPipeline(raw).Some? ==>
              var out := CleanPipeline(raw).value;
              && Distinct(out)
              && (forall e :: e in out ==> Lift(e) in raw && InWindow(e))
              && (forall e :: e in out ==> e.stamp == Some(StampOf(e.time)))
              && (forall e :: e in out ==> e.behavior == Some(Label(e.behaviorType)))
              && (forall e :: e in out && IsPurchase(e) ==> HasPriorClick(out, e))
  {
    var m := DropMissing(raw);
    var d := Dedup(m);
    if Convertible(d) {
      var out := Validate(Relabel(Window(StampAll(d))));
      assert Distinct(d) && forall x :: x in d ==> x in m by {
        HandleDuplicatesSpec(m);
      }
      assert forall x :: x in m ==> Lift(x) in raw && Underived(x) by {
        HandleMissingValuesSpec(raw);
      }
      assert Distinct(out) by {
        CleanedDistinct(d);
      }
      forall e | e in out
        ensures Lift(e) in raw && InWindow(e)
        ensures e.stamp == Some(StampOf(e.time))
        ensures e.behavior == Some(Label(e.behaviorType))
      {
        ValidateSpec(Relabel(Window(StampAll(d))));
        DerivedRowFacts(d, e);
        assert Lift(e) == Lift(Core(e));
      }
      assert forall e :: e in out && IsPurchase(e) ==> HasPriorClick(out, e) by {
        ValidateSpec(Relabel(Window(StampAll(d))));
      }
    }
  }

  /** The last four steps keep distinct rows distinct. */
  lemma CleanedDistinct(d: seq<Event>)
    requires Distinct(d)
    requires forall x :: x in d ==> Underived(x)
    ensures Distinct(Validate(Relabel(Window(StampAll(d)))))
  {
    var s := StampAll(d);
    var w := Window(s);
    var l := Relabel(w);
    StampAllDistinct(d);
    FilterDistinct(s, InWindow);
    HandleOutliersSpec(s);
    forall x | x in w
      ensures x.behavior.None?
    {
      var j :| 0 <= j < |s| && s[j] == x;
      assert s[j].(stamp := d[j].stamp) == d[j];
      assert d[j] in d;
    }
    RelabelDistinct(w);
    FilterDistinct(l, KeepIn(l));
  }

  /** Rows already inside the window all pass the outlier filter. */
  lemma WindowKeepsInside(rows: seq<Event>)
    requires forall i :: 0 <= i < |rows| ==> InWindow(rows[i])
    ensures Window(rows) == rows
  {
    var outside := (e: Event) => !InWindow(e);
    CountZero(rows, outside);
    FilterSpec(rows, InWindow);
    FilterRemoved(rows, InWindow, outside);
    FilterKeepsAll(rows, InWindow);
  }

  lemma DedupPair(a: Event, b: Event)
    requires a != b
    ensures Dedup([a, b]) == [a, b]
  {
    assert [a, b][..1] == [a];
    assert [a][..0] == [];
    assert Dedup([a]) == Dedup([]) + [a];
    assert [a, b][1] !in [a];
    assert Dedup([a, b]) == Dedup([a]) + [b];
  }

  /** A click followed by a purchase of the same user and product, no earlier than the click,
      passes validation whole. */
  lemma ClickThenPurchaseValid(l: seq<Event>)
    requires |l| == 2 && IsClick(l[0]) && IsPurchase(l[1])
    requires ClickOf(l[0], l[1].userId, l[1].productId) && l[0].time <= l[1].time
    ensures Validate(l) == l
  {
    assert !ViolatesIn(l)(l[0]);
    assert !ViolatesIn(l)(l[1]) by {
      ViolatesIff(l, l[1]);
      assert l[0] in l;
    }
    CountZero(l, ViolatesIn(l));
    NoViolationKeepsAll(l);
  }

  /** The example of two rows of one user and product, a click and then a purchase a thousand
      seconds later inside the window: both survive cleaning. */
  lemma ClickThenBuySurvives()
    ensures var raw := [RawRow(Some(1), Some(101), Some(10), Some("pv"), Some(1511577600)),
                        RawRow(Some(1), Some(101), Some(10), Some("buy"), Some(1511578600))];
            CleanPipeline(raw).Some? && |CleanPipeline(raw).value| == 2
  {
    var raw := [RawRow(Some(1), Some(101), Some(10), Some("pv"), Some(1511577600)),
                RawRow(Some(1), Some(101), Some(10), Some("buy"), Some(1511578600))];
    var click := Event(1, 101, 10, "pv", 1511577600, None, None);
    var buy := Event(1, 101, 10, "buy", 1511578600, None, None);
    var rows := [click, buy];
    assert Dedup(DropMissing(raw)) == rows by {
      assert raw[1..][1..] == [];
      assert DropMissing(raw) == rows;
      DedupPair(click, buy);
    }
    assert Convertible(rows);
    var s := StampAll(rows);
    assert Window(s) == s by {
      WindowBounds();
      WindowKeepsInside(s);
    }
    var l := Relabel(s);
    assert Validate(l) == l by {
      ClickThenPurchaseValid(l);
    }
  }
}
