/**
 * The row filters of the picker: `filter_last_seen`, `filter_account_creation`
 * and the exclusion of staff accounts. Each keeps the rows whose cell passes
 * a test, in their original order; the wall clock is the parameter `now`.
 */
module Filters {
  import opened Wrappers
  import opened Calendar
  import opened Frames
  import opened Text

  // ---------------------------------------------------------------------------
  // Last seen

  /** The recognised options of `filter_last_seen`. */
  datatype SeenWindow = SeenToday | SeenThisWeek | SeenThisMonth

  function SeenLabel(w: SeenWindow): string
  {
    match w
    case SeenToday => "Today"
    case SeenThisWeek => "This Week"
    case SeenThisMonth => "This Month"
  }

  /** The `match` on the option string; any other string matches no case. */
  function ParseSeenWindow(option: string): (r: Option<SeenWindow>)
    ensures r.Some? ==> SeenLabel(r.value) == option
    ensures r.None? <==> forall w :: SeenLabel(w) != option
  {
    if option == "Today" then Some(SeenToday)
    else if option == "This Week" then Some(SeenThisWeek)
    else if option == "This Month" then Some(SeenThisMonth)
    else None
  }

  lemma SeenLabelRoundTrip(w: SeenWindow)
    ensures ParseSeenWindow(SeenLabel(w)) == Some(w)
  {
  }

  /** The comparison each case makes: last seen at or after a bound computed from `now`. */
  predicate SeenKeeps(w: SeenWindow, now: Instant, t: Instant)
  {
    match w
    case SeenToday => t >= StartOfDay(now)
    case SeenThisWeek => t >= now - Week
    case SeenThisMonth => t >= MonthStart(now)
  }

  /**
   * What each window means in calendar terms: on the UTC day of `now` or
   * later; at most seven days before `now`; in the UTC month of `now` or later.
   */
  predicate SeenWithin(w: SeenWindow, now: Instant, t: Instant)
  {
    match w
    case SeenToday => DayNumber(t) >= DayNumber(now)
    case SeenThisWeek => now - t <= Week
    case SeenThisMonth => MonthIndexOf(t) >= MonthIndexOf(now)
  }

  lemma SeenKeepsMeaning(w: SeenWindow, now: Instant)
    ensures forall t :: SeenKeeps(w, now, t) <==> SeenWithin(w, now, t)
  {
    forall t ensures SeenKeeps(w, now, t) <==> SeenWithin(w, now, t) {
      match w
      case SeenToday =>
        StartOfDayIsDayStart(now);
        DayScale(t, DayNumber(now));
      case SeenThisWeek =>
      case SeenThisMonth =>
        ThisMonthMeaning(now, t);
    }
  }

  /**
   * "Today" at its edge: one second before midnight (23:59:59 of the day
   * before) is out, one second after it (00:00:01) is in.
   */
  lemma TodayBoundary(now: Instant)
    ensures DayNumber(StartOfDay(now) - Second) == DayNumber(now) - 1
    ensures !SeenKeeps(SeenToday, now, StartOfDay(now) - Second)
    ensures DayNumber(StartOfDay(now) + Second) == DayNumber(now)
    ensures SeenKeeps(SeenToday, now, StartOfDay(now) + Second)
  {
    StartOfDayIsDayStart(now);
  }

  /** A missing or null timestamp compares false, so its row is dropped. */
  predicate CellWithin(cell: Option<Instant>, within: Instant -> bool)
  {
    cell.Some? && within(cell.value)
  }

  /**
   * The row test of `filter_last_seen` in calendar terms; an option that
   * matches no case keeps every row.
   */
  function SeenTest(option: string, now: Instant): Row -> bool
  {
    (x: Row) =>
      match ParseSeenWindow(option)
      case None => true
      case Some(w) => x.member.lastSeenAt.Some? && SeenWithin(w, now, x.member.lastSeenAt.value)
  }

  function FilterLastSeen(df: Frame, option: string, now: Instant): (r: Frame)
    ensures r == Select(df, SeenTest(option, now))
    ensures ParseSeenWindow(option).None? ==> r == df
    ensures ParseSeenWindow(option).Some? ==> forall x :: x in r <==>
      (x in df && x.member.lastSeenAt.Some? &&
       SeenWithin(ParseSeenWindow(option).value, now, x.member.lastSeenAt.value))
  {
    match ParseSeenWindow(option)
    case None =>
      SelectAll(df, SeenTest(option, now));
      df
    case Some(w) =>
      var keep := (x: Row) => CellWithin(x.member.lastSeenAt, t => SeenKeeps(w, now, t));
      SeenKeepsMeaning(w, now);
      SelectAgree(df, keep, SeenTest(option, now));
      Select(df, keep)
  }

  // ---------------------------------------------------------------------------
  // Account creation

  /** The recognised options of `filter_account_creation`. */
  datatype CreatedWindow = CreatedThisMonth | CreatedLastTwoMonths | CreatedOnLaunch

  function CreatedLabel(w: CreatedWindow): string
  {
    match w
    case CreatedThisMonth => "This Month"
    case CreatedLastTwoMonths => "Last Two Months"
    case CreatedOnLaunch => "On Launch"
  }

  function ParseCreatedWindow(option: string): (r: Option<CreatedWindow>)
    ensures r.Some? ==> CreatedLabel(r.value) == option
    ensures r.None? <==> forall w :: CreatedLabel(w) != option
  {
    if option == "This Month" then Some(CreatedThisMonth)
    else if option == "Last Two Months" then Some(CreatedLastTwoMonths)
    else if option == "On Launch" then Some(CreatedOnLaunch)
    else None
  }

  lemma CreatedLabelRoundTrip(w: CreatedWindow)
    ensures ParseCreatedWindow(CreatedLabel(w)) == Some(w)
  {
  }

  /** The launch month, May 2024, opens at midnight UTC on its first day. */
  function LaunchStart(): Instant
  {
    Midnight(Date(2024, 5, 1))
  }

  /** The last instant the launch filter keeps: 2024-05-31 23:59:59 UTC. */
  function LaunchEnd(): Instant
  {
    At(Date(2024, 5, 31), 23, 59, 59)
  }

  /** The month index of May 2024. */
  const LaunchMonth: int := 12 * 2024 + 4

  /** The launch bounds as seconds since the epoch, and their place among month starts. */
  lemma LaunchBounds()
    ensures LaunchStart() == 1_714_521_600 * Second
    ensures LaunchEnd() == 1_717_199_999 * Second
    ensures LaunchStart() == DayStart(MonthStartDays(LaunchMonth))
    ensures DayStart(MonthStartDays(LaunchMonth + 1)) == 1_717_200_000 * Second
  {
    LaunchDays();
  }

  lemma LaunchDays()
    ensures DaysFromCivil(Date(2024, 5, 1)) == 19844
    ensures DaysFromCivil(Date(2024, 5, 31)) == 19874
    ensures MonthStartDays(LaunchMonth) == 19844
    ensures MonthStartDays(LaunchMonth + 1) == 19875
  {
    assert DaysBeforeYear(2024) == 19723;
    assert DaysBeforeMonth(2024, 5) == 121;
    assert DaysBeforeMonth(2024, 6) == 152;
    assert LaunchMonth / 12 == 2024 && LaunchMonth % 12 == 4;
    assert (LaunchMonth + 1) / 12 == 2024 && (LaunchMonth + 1) % 12 == 5;
  }

  predicate CreatedKeeps(w: CreatedWindow, now: Instant, t: Instant)
  {
    match w
    case CreatedThisMonth => t >= MonthStart(now)
    case CreatedLastTwoMonths => t >= PreviousMonthStart(now)
    case CreatedOnLaunch => LaunchStart() <= t <= LaunchEnd()
  }

  /**
   * What each window means in calendar terms: created in the UTC month of
   * `now` or later; in that month or the one before; in May 2024 no later
   * than 23:59:59 on its last day.
   */
  predicate CreatedWithin(w: CreatedWindow, now: Instant, t: Instant)
  {
    match w
    case CreatedThisMonth => MonthIndexOf(t) >= MonthIndexOf(now)
    case CreatedLastTwoMonths => MonthIndexOf(t) >= MonthIndexOf(now) - 1
    case CreatedOnLaunch => MonthIndexOf(t) == LaunchMonth && t <= LaunchEnd()
  }

  lemma CreatedKeepsMeaning(w: CreatedWindow, now: Instant)
    ensures forall t :: CreatedKeeps(w, now, t) <==> CreatedWithin(w, now, t)
  {
    forall t ensures CreatedKeeps(w, now, t) <==> CreatedWithin(w, now, t) {
      match w
      case CreatedThisMonth =>
        ThisMonthMeaning(now, t);
      case CreatedLastTwoMonths =>
        LastTwoMonthsMeaning(now, t);
      case CreatedOnLaunch =>
        OnLaunchMeaning(t);
    }
  }

  lemma ThisMonthMeaning(now: Instant, t: Instant)
    ensures t >= MonthStart(now) <==> MonthIndexOf(t) >= MonthIndexOf(now)
  {
    AtOrAfterMonthStart(t, MonthIndexOf(now));
  }

  lemma LastTwoMonthsMeaning(now: Instant, t: Instant)
    ensures t >= PreviousMonthStart(now) <==> MonthIndexOf(t) >= MonthIndexOf(now) - 1
  {
    AtOrAfterMonthStart(t, MonthIndexOf(now) - 1);
  }

  /** The launch bounds hold exactly May 2024 up to its last whole second. */
  lemma OnLaunchMeaning(t: Instant)
    ensures LaunchStart() <= t <= LaunchEnd() <==> MonthIndexOf(t) == LaunchMonth && t <= LaunchEnd()
  {
    LaunchBounds();
    AtOrAfterMonthStart(t, LaunchMonth);
    AtOrAfterMonthStart(t, LaunchMonth + 1);
  }

  /**
   * The row test of `filter_account_creation` in calendar terms; an option
   * that matches no case keeps every row.
   */
  function CreatedTest(option: string, now: Instant): Row -> bool
  {
    (x: Row) =>
      match ParseCreatedWindow(option)
      case None => true
      case Some(w) => x.member.createdAt.Some? && CreatedWithin(w, now, x.member.createdAt.value)
  }

  function FilterAccountCreation(df: Frame, option: string, now: Instant): (r: Frame)
    ensures r == Select(df, CreatedTest(option, now))
    ensures ParseCreatedWindow(option).None? ==> r == df
    ensures ParseCreatedWindow(option).Some? ==> forall x :: x in r <==>
      (x in df && x.member.createdAt.Some? &&
       CreatedWithin(ParseCreatedWindow(option).value, now, x.member.createdAt.value))
  {
    match ParseCreatedWindow(option)
    case None =>
      SelectAll(df, CreatedTest(option, now));
      df
    case Some(w) =>
      var keep := (x: Row) => CellWithin(x.member.createdAt, t => CreatedKeeps(w, now, t));
      CreatedKeepsMeaning(w, now);
      SelectAgree(df, keep, CreatedTest(option, now));
      Select(df, keep)
  }

  /**
   * The launch window at its edges: the end of April and the first of June
   * are out, mid-May and the last whole second of May are in, and half a
   * second later is out again.
   */
  lemma LaunchExamples(now: Instant)
    ensures !CreatedKeeps(CreatedOnLaunch, now, 1_714_478_400 * Second)  // 2024-04-30 12:00:00
    ensures CreatedKeeps(CreatedOnLaunch, now, 1_714_521_600 * Second)   // 2024-05-01 00:00:00
    ensures CreatedKeeps(CreatedOnLaunch, now, 1_715_774_400 * Second)   // 2024-05-15 12:00:00
    ensures CreatedKeeps(CreatedOnLaunch, now, 1_717_199_999 * Second)   // 2024-05-31 23:59:59
    ensures !CreatedKeeps(CreatedOnLaunch, now, 1_717_199_999 * Second + Second / 2)
    ensures !CreatedKeeps(CreatedOnLaunch, now, 1_717_200_000 * Second)  // 2024-06-01 00:00:00
  {
    LaunchBounds();
  }

  /** In January, "Last Two Months" reaches back to December 1 of the previous year. */
  lemma LastTwoMonthsInJanuary(now: Instant, t: Instant)
    requires DateOf(now).month == 1
    ensures CreatedKeeps(CreatedLastTwoMonths, now, t) <==>
      (DateOf(t).year >= DateOf(now).year ||
       (DateOf(t).year == DateOf(now).year - 1 && DateOf(t).month == 12))
  {
    CreatedKeepsMeaning(CreatedLastTwoMonths, now);
    assert CreatedKeeps(CreatedLastTwoMonths, now, t) <==> CreatedWithin(CreatedLastTwoMonths, now, t);
    JanuaryMonths(now, t);
  }

  lemma JanuaryMonths(now: Instant, t: Instant)
    requires DateOf(now).month == 1
    ensures MonthIndexOf(t) >= MonthIndexOf(now) - 1 <==>
      (DateOf(t).year >= DateOf(now).year ||
       (DateOf(t).year == DateOf(now).year - 1 && DateOf(t).month == 12))
  {
    var d, e := DateOf(t), DateOf(now);
    assert ValidDate(d);
    JanuaryIndex(d.year, d.month, e.year);
  }

  lemma JanuaryIndex(y: int, m: int, year: int)
    requires 1 <= m <= 12
    ensures 12 * y + m - 1 >= 12 * year - 1 <==> (y >= year || (y == year - 1 && m == 12))
  {
  }

  // ---------------------------------------------------------------------------
  // Staff accounts

  /** A null cell never contains the pattern (`na=False`). */
  predicate CellContains(cell: Option<string>, pattern: string)
  {
    cell.Some? && ContainsIgnoringCase(cell.value, pattern)
  }

  /** A staff account: "gigg" in the email or "admin" in the name, in any letter case. */
  predicate IsStaff(m: Member)
  {
    CellContains(m.email, "gigg") || CellContains(m.name, "admin")
  }

  function NotStaff(x: Row): bool
  {
    !IsStaff(x.member)
  }

  /** The two masks applied one after the other: first on the email, then on the name. */
  function ExcludeStaff(df: Frame): (r: Frame)
    ensures r == Select(df, NotStaff)
    ensures forall x :: x in r <==> x in df && !IsStaff(x.member)
  {
    var noGigg := (x: Row) => !CellContains(x.member.email, "gigg");
    var noAdmin := (x: Row) => !CellContains(x.member.name, "admin");
    SelectSelect(df, noGigg, noAdmin, NotStaff);
    Select(Select(df, noGigg), noAdmin)
  }

  /** Staff accounts the exclusion is meant for, whatever the letter case. */
  lemma StaffExamples()
    ensures IsStaff(Member(None, Some("bob@gigg.com"), None, None))
    ensures IsStaff(Member(None, Some("Bob@GIGG.com"), None, None))
    ensures IsStaff(Member(Some("admin_bob"), None, None, None))
    ensures IsStaff(Member(Some("bobadminson"), Some("bob@x.io"), None, None))
  {
    assert MatchesAt("bob@gigg.com", "gigg", 4);
    assert MatchesAt("Bob@GIGG.com", "gigg", 4);
    assert MatchesAt("admin_bob", "admin", 0);
    assert MatchesAt("bobadminson", "admin", 3);
  }

  /** Members the exclusion keeps: no pattern in either cell, or null cells. */
  lemma NonStaffExamples()
    ensures !IsStaff(Member(Some("Bob"), Some("bob@x.io"), None, None))
    ensures !IsStaff(Member(None, None, None, None))
  {
    NoFirstLetterNoMatch("bob@x.io", "gigg");
    NoFirstLetterNoMatch("Bob", "admin");
  }
}
