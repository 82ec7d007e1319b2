/**
 * `recyoself.utils.calendar.AvailabilityCalendar`: a month-by-day table of inline styles that
 * starts as `"none"` everywhere, is marked `"green4 bold"` one date at a time, and reports the
 * months holding at least one marked date. Printing the table is left out.
 */
module AvailabilityCalendars {

  import opened Wrappers

  const NoStyle: string := "none"
  const AvailableStyle: string := "green4 bold"

  /** `day_styles`: month number to (day number to style). */
  type Styles = map<int, map<int, string>>

  /** A month's days carry some style other than `"none"`. */
  predicate Styled(days: map<int, string>) {
    exists d :: d in days && days[d] != NoStyle
  }

  /** Every month `1..12` has a row of days, and there are no other months. */
  ghost predicate HasMonths(styles: Styles) {
    forall m :: m in styles <==> 1 <= m <= 12
  }

  /** Days `1..n`, each unstyled. */
  function UnstyledDays(n: nat): (r: map<int, string>)
    ensures forall d :: d in r <==> 1 <= d <= n
    ensures forall d :: d in r ==> r[d] == NoStyle
  {
    if n == 0 then map[] else UnstyledDays(n - 1)[n := NoStyle]
  }

  /** Months `1..n`, each with days `1..31` unstyled. */
  function UnstyledMonths(n: nat): (r: Styles)
    ensures forall m :: m in r <==> 1 <= m <= n
    ensures forall m :: m in r ==> r[m] == UnstyledDays(31)
  {
    if n == 0 then map[] else UnstyledMonths(n - 1)[n := UnstyledDays(31)]
  }

  /** The table `__init__` builds: `"none"` for every month `1..12` and day `1..31`. */
  function FreshStyles(): (r: Styles)
    ensures HasMonths(r)
    ensures forall m, d :: m in r && d in r[m] ==> 1 <= d <= 31 && r[m][d] == NoStyle
    ensures forall m, d :: 1 <= m <= 12 && 1 <= d <= 31 ==> d in r[m]
  {
    UnstyledMonths(12)
  }

  /** The styled months among `1..n`, in the order `styled_months` visits them. */
  function MonthsUpTo(styles: Styles, n: nat): seq<int>
    requires n <= 12 && HasMonths(styles)
  {
    if n == 0 then []
    else MonthsUpTo(styles, n - 1) + (if Styled(styles[n]) then [n] else [])
  }

  /** `styled_months`. */
  function StyledMonthsOf(styles: Styles): seq<int>
    requires HasMonths(styles)
  {
    MonthsUpTo(styles, 12)
  }

  /** The styled months among `1..n` are ascending, and are exactly the months there with a style. */
  lemma {:induction false} MonthsUpToSpec(styles: Styles, n: nat)
    requires n <= 12 && HasMonths(styles)
    ensures var r := MonthsUpTo(styles, n);
      && (forall i, j :: 0 <= i < j < |r| ==> r[i] < r[j])
      && (forall k :: k in r <==> 1 <= k <= n && Styled(styles[k]))
  {
    if n > 0 {
      MonthsUpToSpec(styles, n - 1);
      var prev := MonthsUpTo(styles, n - 1);
      var r := MonthsUpTo(styles, n);
      assert forall k :: k in prev ==> k <= n - 1;
      if Styled(styles[n]) {
        assert r == prev + [n];
        assert forall i :: 0 <= i < |prev| ==> r[i] == prev[i] && r[i] in prev;
      } else {
        assert r == prev;
      }
    }
  }

  /** `styled_months` is ascending, so free of duplicates, and holds exactly the styled months. */
  lemma StyledMonthsSpec(styles: Styles)
    requires HasMonths(styles)
    ensures var r := StyledMonthsOf(styles);
      && (forall i, j :: 0 <= i < j < |r| ==> r[i] < r[j])
      && (forall m :: m in r <==> 1 <= m <= 12 && Styled(styles[m]))
  {
    MonthsUpToSpec(styles, 12);
  }

  /** A fresh calendar has no styled month. */
  lemma FreshHasNoStyledMonths()
    ensures StyledMonthsOf(FreshStyles()) == []
  {
    var r := StyledMonthsOf(FreshStyles());
    StyledMonthsSpec(FreshStyles());
    assert forall m :: m !in r;
  }

  /** `set_available(month, day)` on the table: that one date gets `"green4 bold"`. */
  function SetStyle(styles: Styles, month: int, day: int): (r: Styles)
    requires month in styles
    ensures r.Keys == styles.Keys
    ensures r[month].Keys == styles[month].Keys + {day}
    ensures r[month][day] == AvailableStyle
    ensures forall m :: m in styles && m != month ==> r[m] == styles[m]
    ensures forall d :: d in styles[month] && d != day ==> r[month][d] == styles[month][d]
  {
    styles[month := styles[month][day := AvailableStyle]]
  }

  /** Marking a date makes its month a styled month, and keeps the months `1..12`. */
  lemma SetStyleMarksMonth(styles: Styles, month: int, day: int)
    requires HasMonths(styles) && 1 <= month <= 12
    ensures HasMonths(SetStyle(styles, month, day))
    ensures month in StyledMonthsOf(SetStyle(styles, month, day))
  {
    var r := SetStyle(styles, month, day);
    assert day in r[month] && r[month][day] != NoStyle;
    StyledMonthsSpec(r);
  }

  /** Marking a date never unmarks a month. */
  lemma SetStyleKeepsStyledMonths(styles: Styles, month: int, day: int)
    requires HasMonths(styles) && 1 <= month <= 12
    ensures HasMonths(SetStyle(styles, month, day))
    ensures forall m :: m in StyledMonthsOf(styles) ==> m in StyledMonthsOf(SetStyle(styles, month, day))
  {
    var r := SetStyle(styles, month, day);
    StyledMonthsSpec(styles);
    StyledMonthsSpec(r);
    forall m | m in StyledMonthsOf(styles)
      ensures Styled(r[m])
    {
      var d :| d in styles[m] && styles[m][d] != NoStyle;
      if m == month && d == day {
        assert r[m][d] == AvailableStyle;
      } else if m == month {
        assert r[m][d] == styles[m][d];
      }
    }
  }

  /** Marking the same date twice is marking it once. */
  lemma SetStyleIdempotent(styles: Styles, month: int, day: int)
    requires month in styles
    ensures SetStyle(SetStyle(styles, month, day), month, day) == SetStyle(styles, month, day)
  {
    var r := SetStyle(styles, month, day);
    assert r[month][day := AvailableStyle] == r[month];
  }

  class AvailabilityCalendar {
    var year: int
    var firstWeekday: int
    var dayStyles: Styles

    ghost predicate Valid()
      reads this
    {
      HasMonths(dayStyles)
    }

    /** `__init__`: every date of every month starts unstyled. */
    constructor (year: int, firstWeekday: int := 6)
      ensures this.year == year && this.firstWeekday == firstWeekday
      ensures dayStyles == FreshStyles()
      ensures Valid()
    {
      this.year := year;
      this.firstWeekday := firstWeekday;
      dayStyles := FreshStyles();
    }

    /**
     * `set_available`: a month outside `1..12` has no row, so the lookup raises `KeyError` and
     * the table is left as it was; otherwise that one date is marked and its month is styled.
     */
    method SetAvailable(month: int, day: int) returns (outcome: Result<()>)
      requires Valid()
      modifies this
      ensures Valid()
      ensures year == old(year) && firstWeekday == old(firstWeekday)
      ensures outcome.Failure? <==> !(1 <= month <= 12)
      ensures outcome.Failure? ==> outcome.error == KeyError && dayStyles == old(dayStyles)
      ensures outcome.Success? ==> dayStyles == SetStyle(old(dayStyles), month, day)
      ensures outcome.Success? ==> month in StyledMonthsOf(dayStyles)
    {
      if month !in dayStyles {
        return Failure(KeyError);
      }
      SetStyleMarksMonth(dayStyles, month, day);
      dayStyles := dayStyles[month := dayStyles[month][day := AvailableStyle]];
      outcome := Success(());
    }

    /**
     * `styled_months`: the months in table order, each appended once its first styled day is
     * found; the months are ascending and are exactly those with a style.
     */
    method StyledMonths() returns (months: seq<int>)
      requires Valid()
      ensures months == StyledMonthsOf(dayStyles)
      ensures forall i, j :: 0 <= i < j < |months| ==> months[i] < months[j]
      ensures forall m :: m in months <==> 1 <= m <= 12 && Styled(dayStyles[m])
    {
      months := [];
      for m := 1 to 13
        invariant months == MonthsUpTo(dayStyles, m - 1)
      {
        var found := MonthStyled(dayStyles[m]);
        if found {
          months := months + [m];
        }
      }
      StyledMonthsSpec(dayStyles);
    }
  }

  /** A set other than `{}` has an element (extensionality, read backwards). */
  lemma NonEmptyHasElement(s: set<int>)
    requires s != {}
    ensures exists x :: x in s
  {
    if forall y :: y !in s {
      assert false;
    }
  }

  /** The inner loop of `styled_months`: scans a month's days until one carries a style. */
  method MonthStyled(days: map<int, string>) returns (found: bool)
    ensures found <==> Styled(days)
  {
    found := false;
    var unseen := days.Keys;
    while unseen != {}
      invariant unseen <= days.Keys
      invariant forall d :: d in days && d !in unseen ==> days[d] == NoStyle
      invariant !found
      decreases unseen
    {
      NonEmptyHasElement(unseen);
      var d :| d in unseen;
      if days[d] != NoStyle {
        found := true;
        break;
      }
      unseen := unseen - {d};
    }
  }
}
