/**
 * A division's capacity timeline (`recgov.division_availability`): one record per fetched
 * date with total and remaining slots, read through the date-sorted view, and the
 * "available dates" query. Dates are day numbers (`date.toordinal()`).
 */
module DivisionAvailabilities {
  import opened Wrappers
  import opened Dates
  import opened Timeline
  import Divisions

  /** One date's capacity; records compare by `date` only. */
  datatype AvailabilityInfo = AvailabilityInfo(date: int, totalSlots: int, availableSlots: int, hasWalkup: bool) {
    /** The `available` property. */
    predicate Available() { availableSlots > 0 }
  }

  function InfoDate(a: AvailabilityInfo): int { a.date }

  /** The filter of `available_dates(slots)`. */
  function HasRoomFor(slots: int): AvailabilityInfo -> bool {
    (a: AvailabilityInfo) => a.availableSlots > 0 && a.totalSlots >= slots
  }

  /** `available_dates(slots)` over a list of appended records. */
  function AvailableDatesOf(records: seq<AvailabilityInfo>, slots: int): seq<int> {
    DatesWhere(records, InfoDate, HasRoomFor(slots))
  }

  /**
   * The listed dates are ascending, and a date is listed iff some record of that date has a
   * free slot and at least `slots` slots in total. A date is listed once per such record.
   */
  lemma AvailableDatesMembers(records: seq<AvailabilityInfo>, slots: int, d: int)
    ensures Ascending(AvailableDatesOf(records, slots))
    ensures d in AvailableDatesOf(records, slots) <==>
      exists r :: r in records && r.availableSlots > 0 && r.totalSlots >= slots && r.date == d
    ensures multiset(AvailableDatesOf(records, slots)) == SelectedKeys(records, InfoDate, HasRoomFor(slots))
  {
    DatesWhereAscending(records, InfoDate, HasRoomFor(slots));
    DatesWhereMembers(records, InfoDate, HasRoomFor(slots), d);
    DatesWhereMultiplicity(records, InfoDate, HasRoomFor(slots));
  }

  /** Two qualifying records for one date list that date twice. */
  lemma RepeatedDateListedTwice()
    ensures AvailableDatesOf([AvailabilityInfo(5, 2, 1, false), AvailabilityInfo(5, 3, 2, true)], 1) == [5, 5]
  {
    var records := [AvailabilityInfo(5, 2, 1, false), AvailabilityInfo(5, 3, 2, true)];
    assert SortBy(records, InfoDate) == records;
  }

  /** A date whose every record has no free slot is never listed, whatever `slots` is. */
  lemma UnavailableNeverListed(records: seq<AvailabilityInfo>, slots: int, d: int)
    requires forall r :: r in records && r.date == d ==> !r.Available()
    ensures d !in AvailableDatesOf(records, slots)
  {
    AvailableDatesMembers(records, slots, d);
  }

  /** Asking for one more slot can only drop dates: the result is a sub-list. */
  lemma MoreSlotsFewerDates(records: seq<AvailabilityInfo>, slots: int)
    ensures IsSubsequence(AvailableDatesOf(records, slots + 1), AvailableDatesOf(records, slots))
  {
    DatesWhereStronger(records, InfoDate, HasRoomFor(slots + 1), HasRoomFor(slots));
  }

  /** The dates do not depend on the order the records were appended in. */
  lemma AvailableDatesOrderFree(a: seq<AvailabilityInfo>, b: seq<AvailabilityInfo>, slots: int)
    requires multiset(a) == multiset(b)
    ensures AvailableDatesOf(a, slots) == AvailableDatesOf(b, slots)
  {
    DatesWhereOrderFree(a, b, InfoDate, HasRoomFor(slots));
  }

  // ---------------------------------------------------------------------------
  // AvailabilityInfo.__post_init__: the date field may arrive as a date or as text
  // ---------------------------------------------------------------------------

  datatype RawDate = DateValue(day: Ymd) | DateText(text: string)

  /**
   * `__post_init__` on the date: a date value is kept, the empty text is kept (it is
   * falsy), and other text is read as `%Y-%m-%d`, failing with `ValueError`.
   */
  function PostInitDate(raw: RawDate): (r: Result<RawDate>)
    ensures raw.DateValue? || raw == DateText("") ==> r == Success(raw)
    ensures r.Success? && raw.DateText? && raw.text != "" ==>
      r.value.DateValue? && Valid(r.value.day) && FormatIsoDate(r.value.day) == raw.text
    ensures r.Failure? ==> r.error.ValueError? && raw.DateText? && raw.text != "" && ParseIsoDate(raw.text).None?
  {
    match raw
    case DateValue(_) => Success(raw)
    case DateText(t) =>
      if t == "" then Success(raw)
      else match ParseIsoDate(t)
        case Some(d) => (FormatParsedIsoDate(t, d); Success(DateValue(d)))
        case None => Failure(ValueError("time data does not match format '%Y-%m-%d'"))
  }

  /** The text of a valid date normalises to that date. */
  lemma PostInitOfFormatted(d: Ymd)
    requires Valid(d)
    ensures PostInitDate(DateText(FormatIsoDate(d))) == Success(DateValue(d))
  {
    ParseFormatIsoDate(d);
  }

  /** Normalising twice is normalising once. */
  lemma PostInitIdempotent(raw: RawDate)
    requires PostInitDate(raw).Success?
    ensures PostInitDate(PostInitDate(raw).value) == PostInitDate(raw)
  {
  }

  /** The timeline of one division. */
  class DivisionAvailability {
    const division: Divisions.Division
    /** The appended records, in insertion order (`_availabilities`). */
    var records: seq<AvailabilityInfo>

    constructor (division: Divisions.Division)
      ensures this.division == division && records == []
    {
      this.division := division;
      records := [];
    }

    /** The `availabilities` property: the records sorted by date, ties in insertion order. */
    function Availabilities(): (r: seq<AvailabilityInfo>)
      reads this
      ensures SortedBy(r, InfoDate) && multiset(r) == multiset(records)
      ensures forall k :: WithKey(r, InfoDate, k) == WithKey(records, InfoDate, k)
    {
      SortBySorted(records, InfoDate);
      SortByPermutation(records, InfoDate);
      forall k ensures WithKey(SortBy(records, InfoDate), InfoDate, k) == WithKey(records, InfoDate, k) {
        SortByStable(records, InfoDate, k);
      }
      SortBy(records, InfoDate)
    }

    method SetAvailability(date: int, totalSlots: int, availableSlots: int, hasWalkup: bool)
      modifies this
      ensures records == old(records) + [AvailabilityInfo(date, totalSlots, availableSlots, hasWalkup)]
    {
      records := records + [AvailabilityInfo(date, totalSlots, availableSlots, hasWalkup)];
    }

    /**
     * `available_dates(slots)`, ascending; a date is listed iff one of its records has room,
     * and once per such record.
     */
    function AvailableDates(slots: int): (r: seq<int>)
      reads this
      ensures Ascending(r)
      ensures forall d :: d in r ==>
        exists a :: a in records && a.availableSlots > 0 && a.totalSlots >= slots && a.date == d
      ensures forall a :: a in records && a.availableSlots > 0 && a.totalSlots >= slots ==> a.date in r
      ensures multiset(r) == SelectedKeys(records, InfoDate, HasRoomFor(slots))
    {
      DatesWhereMultiplicity(records, InfoDate, HasRoomFor(slots));
      forall d ensures d in AvailableDatesOf(records, slots) <==>
        exists a :: a in records && a.availableSlots > 0 && a.totalSlots >= slots && a.date == d
      {
        AvailableDatesMembers(records, slots, d);
      }
      DatesWhereAscending(records, InfoDate, HasRoomFor(slots));
      AvailableDatesOf(records, slots)
    }
  }
}
