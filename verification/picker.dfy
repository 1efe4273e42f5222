/**
 * `get_random_members` and the form handler around it: the optional filters
 * applied in order, the odds line that divides by the size of the remaining
 * pool, and a sample without replacement. Which rows the sample draws is left
 * open (any choice of distinct positions), so the model states what every
 * draw satisfies rather than how likely each one is.
 */
module Picker {
  import opened Wrappers
  import opened Calendar
  import opened Frames
  import opened Filters

  /** The arguments of one call, as the form passes them. */
  datatype Options = Options(picks: int, lastSeen: string, created: string, excludeStaff: bool)

  /** The string a select box holds when no filter is chosen. */
  const NoFilter: string := "None"

  function StaffTest(excludeStaff: bool): Row -> bool
  {
    (x: Row) => excludeStaff ==> NotStaff(x)
  }

  function SeenAndCreatedTest(o: Options, seenNow: Instant, createdNow: Instant): Row -> bool
  {
    (x: Row) => SeenTest(o.lastSeen, seenNow)(x) && CreatedTest(o.created, createdNow)(x)
  }

  /**
   * Whether a row survives the whole pipeline: it passes the last-seen
   * window (if one is recognised), the creation window (likewise), and is
   * not a staff account when staff are excluded.
   */
  function PoolTest(o: Options, seenNow: Instant, createdNow: Instant): Row -> bool
  {
    (x: Row) => SeenAndCreatedTest(o, seenNow, createdNow)(x) && StaffTest(o.excludeStaff)(x)
  }

  /**
   * The filter steps of `get_random_members`. The two filters read the clock
   * separately, so each gets its own `now`.
   */
  function Pool(df: Frame, o: Options, seenNow: Instant, createdNow: Instant): (r: Frame)
    ensures r == Select(df, PoolTest(o, seenNow, createdNow))
    ensures IsSubsequence(r, df)
    ensures forall x :: x in r <==> x in df && PoolTest(o, seenNow, createdNow)(x)
  {
    var seen := if o.lastSeen != NoFilter then FilterLastSeen(df, o.lastSeen, seenNow) else df;
    var created := if o.created != NoFilter then FilterAccountCreation(seen, o.created, createdNow) else seen;
    var pool := if o.excludeStaff then ExcludeStaff(created) else created;
    PoolSteps(df, o, seenNow, createdNow, seen, created, pool);
    pool
  }

  lemma PoolSteps(df: Frame, o: Options, seenNow: Instant, createdNow: Instant,
                  seen: Frame, created: Frame, pool: Frame)
    requires seen == if o.lastSeen != NoFilter then FilterLastSeen(df, o.lastSeen, seenNow) else df
    requires created == if o.created != NoFilter then FilterAccountCreation(seen, o.created, createdNow) else seen
    requires pool == if o.excludeStaff then ExcludeStaff(created) else created
    ensures pool == Select(df, PoolTest(o, seenNow, createdNow))
  {
    assert ParseSeenWindow(NoFilter).None? && ParseCreatedWindow(NoFilter).None?;
    assert seen == Select(df, SeenTest(o.lastSeen, seenNow)) by {
      if o.lastSeen == NoFilter {
        SelectAll(df, SeenTest(o.lastSeen, seenNow));
      }
    }
    assert created == Select(seen, CreatedTest(o.created, createdNow)) by {
      if o.created == NoFilter {
        SelectAll(seen, CreatedTest(o.created, createdNow));
      }
    }
    assert pool == Select(created, StaffTest(o.excludeStaff)) by {
      if o.excludeStaff {
        SelectAgree(created, NotStaff, StaffTest(o.excludeStaff));
      } else {
        SelectAll(created, StaffTest(o.excludeStaff));
      }
    }
    SelectSelect(df, SeenTest(o.lastSeen, seenNow), CreatedTest(o.created, createdNow),
      SeenAndCreatedTest(o, seenNow, createdNow));
    SelectSelect(df, SeenAndCreatedTest(o, seenNow, createdNow), StaffTest(o.excludeStaff),
      PoolTest(o, seenNow, createdNow));
  }

  /** With no filter chosen and staff kept, the pool is the whole frame. */
  lemma NoFiltersKeepEveryone(df: Frame, picks: int, seenNow: Instant, createdNow: Instant)
    ensures Pool(df, Options(picks, NoFilter, NoFilter, false), seenNow, createdNow) == df
  {
    var o := Options(picks, NoFilter, NoFilter, false);
    assert ParseSeenWindow(NoFilter).None? && ParseCreatedWindow(NoFilter).None?;
    forall x | x in df ensures PoolTest(o, seenNow, createdNow)(x) {
      assert SeenTest(NoFilter, seenNow)(x) && CreatedTest(NoFilter, createdNow)(x);
      assert SeenAndCreatedTest(o, seenNow, createdNow)(x) && StaffTest(false)(x);
    }
    SelectAll(df, PoolTest(o, seenNow, createdNow));
  }

  /** The pool keeps the frame's index order, so rows stay identifiable by index. */
  lemma PoolKeepsIndexOrder(df: Frame, o: Options, seenNow: Instant, createdNow: Instant)
    requires IndexIncreasing(df)
    ensures IndexIncreasing(Pool(df, o, seenNow, createdNow))
  {
    SelectKeepsIndexOrder(df, PoolTest(o, seenNow, createdNow));
  }

  // ---------------------------------------------------------------------------
  // Odds and sample

  datatype PickError =
    | OddsDivisionByZero                         // `number_picks / len(df)` with an empty pool
    | NegativeSampleSize(picks: int)             // `sample(n)` with n < 0: ValueError
    | SampleLargerThanPopulation(picks: int, size: nat) // n > len(df) without replacement: ValueError

  /**
   * The error a call raises for a pool of `size` rows, checked in the order
   * the code meets them: the odds line before the sample.
   */
  function PickCheck(size: nat, picks: int): (e: Option<PickError>)
    ensures e.None? <==> 0 < size && 0 <= picks <= size
    ensures e == Some(OddsDivisionByZero) <==> size == 0
    ensures e.Some? && size > 0 ==> (picks < 0 <==> e.value.NegativeSampleSize?)
    ensures 0 < size && picks < 0 ==> e == Some(NegativeSampleSize(picks))
    ensures 0 < size < picks ==> e == Some(SampleLargerThanPopulation(picks, size))
  {
    if size == 0 then Some(OddsDivisionByZero)
    else if picks < 0 then Some(NegativeSampleSize(picks))
    else if picks > size then Some(SampleLargerThanPopulation(picks, size))
    else None
  }

  /** Distinct positions of a frame of `size` rows, drawn in order. */
  predicate DistinctPositions(positions: seq<nat>, size: nat)
  {
    && (forall i :: 0 <= i < |positions| ==> positions[i] < size)
    && (forall i, j :: 0 <= i < j < |positions| ==> positions[i] != positions[j])
  }

  function Positions(positions: seq<nat>): set<nat>
  {
    set i | 0 <= i < |positions| :: positions[i]
  }

  function Below(n: nat): (s: set<nat>)
    ensures |s| == n
    ensures forall p :: p in s <==> 0 <= p < n
  {
    if n == 0 then {}
    else
      var prev := Below(n - 1);
      assert n - 1 !in prev;
      prev + {n - 1}
  }

  lemma {:induction false} PositionsCount(positions: seq<nat>, size: nat)
    requires DistinctPositions(positions, size)
    ensures |Positions(positions)| == |positions|
    ensures Positions(positions) <= Below(size)
    decreases |positions|
  {
    if positions != [] {
      var init := positions[..|positions| - 1];
      PositionsCount(init, size);
      assert Positions(positions) == Positions(init) + {positions[|positions| - 1]};
    }
  }

  /** Fewer draws than rows leave some position undrawn. */
  lemma FreePositionExists(positions: seq<nat>, size: nat)
    requires DistinctPositions(positions, size)
    requires |positions| < size
    ensures exists p: nat :: p < size && p !in positions
  {
    PositionsCount(positions, size);
    var free := Below(size) - Positions(positions);
    assert |free| > 0;
    var p :| p in free;
    assert p < size && p !in positions;
  }

  /**
   * `DataFrame.sample(n)` without replacement: `n` rows at distinct
   * positions of the frame, each kept with its index.
   */
  method Sample(df: Frame, n: nat) returns (r: Frame, positions: seq<nat>)
    requires n <= |df|
    ensures |r| == |positions| == n
    ensures DistinctPositions(positions, |df|)
    ensures forall i :: 0 <= i < n ==> r[i] == df[positions[i]]
  {
    r, positions := [], [];
    while |r| < n
      invariant |r| == |positions| <= n
      invariant DistinctPositions(positions, |df|)
      invariant forall i :: 0 <= i < |r| ==> r[i] == df[positions[i]]
    {
      FreePositionExists(positions, |df|);
      var p: nat :| p < |df| && p !in positions;
      r, positions := r + [df[p]], positions + [p];
    }
  }

  /**
   * `get_random_members`: the pool, then the odds division, then the sample.
   * The pool is returned alongside so the contract can speak about it.
   */
  method GetRandomMembers(df: Frame, o: Options, seenNow: Instant, createdNow: Instant)
    returns (r: Result<Frame, PickError>, pool: Frame, positions: seq<nat>)
    ensures pool == Pool(df, o, seenNow, createdNow)
    ensures r.Failure? <==> PickCheck(|pool|, o.picks).Some?
    ensures r.Failure? ==> r.error == PickCheck(|pool|, o.picks).value
    ensures r.Success? ==> |r.value| == |positions| == o.picks
    ensures r.Success? ==> DistinctPositions(positions, |pool|)
    ensures r.Success? ==> forall i :: 0 <= i < o.picks ==>
      r.value[i] == pool[positions[i]] && r.value[i] in df && PoolTest(o, seenNow, createdNow)(r.value[i])
  {
    pool := Pool(df, o, seenNow, createdNow);
    positions := [];
    match PickCheck(|pool|, o.picks)
    case Some(e) =>
      r := Failure(e);
    case None =>
      var rows;
      rows, positions := Sample(pool, o.picks);
      r := Success(rows);
  }

  // ---------------------------------------------------------------------------
  // The form handler

  /** What the page shows after "Submit my picks". */
  datatype Screen =
    | PicksShown(rows: Frame)        // the sampled rows
    | NotEnoughMembers(picks: int)   // the `except ValueError` message
    | Traceback(error: PickError)    // an exception nothing catches

  /** The handler as written: only `ValueError` is caught. */
  function ShowAsWritten(r: Result<Frame, PickError>, picks: int): (s: Screen)
    ensures r.Success? ==> s == PicksShown(r.value)
    ensures s.Traceback? <==> r == Failure(OddsDivisionByZero)
    ensures s == Traceback(OddsDivisionByZero) <==> r == Failure(OddsDivisionByZero)
    ensures s == NotEnoughMembers(picks) <==> r.Failure? && r.error != OddsDivisionByZero
  {
    match r
    case Success(rows) => PicksShown(rows)
    case Failure(OddsDivisionByZero) => Traceback(OddsDivisionByZero)
    case Failure(_) => NotEnoughMembers(picks)
  }

  /**
   * The handler as evidently intended: every pick failure, the empty pool
   * included, shows the "not enough members" message for the requested count.
   */
  function ShowCorrected(r: Result<Frame, PickError>, picks: int): (s: Screen)
    ensures !s.Traceback?
    ensures r.Success? ==> s == PicksShown(r.value)
    ensures r.Failure? <==> s == NotEnoughMembers(picks)
  {
    match r
    case Success(rows) => PicksShown(rows)
    case Failure(_) => NotEnoughMembers(picks)
  }

  /**
   * "Submit my picks" with the intended handler: the picks, or the message
   * exactly when the pool is smaller than the count asked for.
   */
  method SubmitPicks(df: Frame, o: Options, seenNow: Instant, createdNow: Instant)
    returns (s: Screen, positions: seq<nat>)
    requires SliderPicks(o.picks)
    ensures !s.Traceback?
    ensures if |Pool(df, o, seenNow, createdNow)| < o.picks then s == NotEnoughMembers(o.picks)
      else s.PicksShown? && |s.rows| == o.picks
    ensures s.PicksShown? ==> forall x :: x in s.rows ==> x in df && PoolTest(o, seenNow, createdNow)(x)
    ensures s.PicksShown? ==> (
      && |positions| == |s.rows|
      && DistinctPositions(positions, |Pool(df, o, seenNow, createdNow)|)
      && forall i :: 0 <= i < |s.rows| ==> s.rows[i] == Pool(df, o, seenNow, createdNow)[positions[i]])
  {
    var r, pool;
    r, pool, positions := GetRandomMembers(df, o, seenNow, createdNow);
    s := ShowCorrected(r, o.picks);
  }

  /** The slider's range: 1 to 20 picks. */
  predicate SliderPicks(picks: int)
  {
    1 <= picks <= 20
  }

  /**
   * With a slider count, the intended page says "not enough members" exactly
   * when the pool holds fewer members than were asked for.
   */
  lemma CorrectedMessageIffShortPool(size: nat, picks: int)
    requires SliderPicks(picks)
    ensures var e := PickCheck(size, picks);
      var r: Result<Frame, PickError> := if e.Some? then Failure(e.value) else Success([]);
      ShowCorrected(r, picks) == NotEnoughMembers(picks) <==> size < picks
  {
  }

  /**
   * As written, a slider count and an empty pool (every member filtered out)
   * end in an uncaught division by zero instead of the message.
   */
  lemma EmptyPoolShowsTraceback(picks: int)
    requires SliderPicks(picks)
    ensures ShowAsWritten(Failure(PickCheck(0, picks).value), picks) == Traceback(OddsDivisionByZero)
    ensures ShowCorrected(Failure(PickCheck(0, picks).value), picks) == NotEnoughMembers(picks)
  {
  }

  // ---------------------------------------------------------------------------
  // The form's options

  const SeenFormOptions: seq<string> := [NoFilter, "Today", "This Week", "This Month"]

  /** The creation select box as written. */
  const CreatedFormOptionsAsWritten: seq<string> := [NoFilter, "This Month", "Last 2 Months"]

  /** The creation select box as evidently intended: the label the filter matches. */
  const CreatedFormOptions: seq<string> := [NoFilter, "This Month", "Last Two Months"]

  /**
   * "Last 2 Months" passes the `!= "None"` guard but matches no case of the
   * creation filter, so choosing it filters nothing.
   */
  lemma Last2MonthsIsIgnored(df: Frame, now: Instant)
    ensures "Last 2 Months" in CreatedFormOptionsAsWritten
    ensures "Last 2 Months" != NoFilter
    ensures ParseCreatedWindow("Last 2 Months").None?
    ensures FilterAccountCreation(df, "Last 2 Months", now) == df
  {
  }

  /** Every option the form offers, other than "None", selects a filter window. */
  lemma FormOptionsAreRecognised()
    ensures forall s :: s in SeenFormOptions && s != NoFilter ==> ParseSeenWindow(s).Some?
    ensures forall s :: s in CreatedFormOptions && s != NoFilter ==> ParseCreatedWindow(s).Some?
    ensures ParseSeenWindow(NoFilter).None? && ParseCreatedWindow(NoFilter).None?
  {
  }

  /** A submission whose values come from the form's widgets. */
  predicate FromForm(o: Options)
  {
    SliderPicks(o.picks) && o.lastSeen in SeenFormOptions && o.created in CreatedFormOptions
  }

  /**
   * For a form submission, a chosen creation window really restricts the
   * pool: every member picked was created inside it.
   */
  lemma FormCreationChoiceTakesEffect(df: Frame, o: Options, seenNow: Instant, createdNow: Instant, x: Row)
    requires FromForm(o) && o.created != NoFilter
    requires x in Pool(df, o, seenNow, createdNow)
    ensures ParseCreatedWindow(o.created).Some?
    ensures x.member.createdAt.Some?
    ensures CreatedWithin(ParseCreatedWindow(o.created).value, createdNow, x.member.createdAt.value)
  {
    FormOptionsAreRecognised();
  }
}
