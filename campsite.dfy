/**
 * A permit campsite as the older client sees it (`recgov.campsite`): its display name
 * and abbreviation read off `full_name`, and its own capacity timeline.
 * Dates are day numbers (`date.toordinal()`).
 */
module Campsites {
  import opened Wrappers
  import opened Strings
  import opened Timeline

  /** One date's capacity; records compare by `date` only. */
  datatype CampsiteAvailability = CampsiteAvailability(date: int, totalSites: int, availableSites: int, hasWalkup: bool) {
    /** The `available` property. */
    predicate Available() { availableSites > 0 }
  }

  function SiteDate(a: CampsiteAvailability): int { a.date }

  /** The fields of one date's payload that `save_availability` reads. */
  datatype DateData = DateData(total: int, remaining: int, showWalkup: bool)

  /** The filter of `available_dates(sites)`. */
  function HasSitesFor(sites: int): CampsiteAvailability -> bool {
    (a: CampsiteAvailability) => a.availableSites > 0 && a.totalSites >= sites
  }

  /** Python's `parts.index(t)`: the first position holding `t`; `None` for `ValueError`. */
  function IndexOfToken(parts: seq<string>, t: string): (r: Option<nat>)
    ensures r.None? <==> t !in parts
    ensures r.Some? ==> r.value < |parts| && parts[r.value] == t && t !in parts[..r.value]
    decreases |parts|
  {
    if parts == [] then None
    else if parts[0] == t then Some(0)
    else match IndexOfToken(parts[1..], t)
      case None => None
      case Some(i) => (assert parts[..i + 1] == [parts[0]] + parts[1..][..i]; Some(i + 1))
  }

  lemma IndexOfTokenAfter(before: seq<string>, t: string, after: seq<string>)
    requires t !in before
    ensures IndexOfToken(before + [t] + after, t) == Some(|before|)
  {
    var parts := before + [t] + after;
    assert parts[|before|] == t;
    assert parts[..|before|] == before;
  }

  /** The campsites of one permit area. */
  class Campsite {
    const campsiteId: int
    const permitAreaId: int
    const district: string
    const fullName: string
    const children: seq<string>
    /** The appended records, in insertion order (`_availabilities`). */
    var records: seq<CampsiteAvailability>

    constructor (campsiteId: int, permitAreaId: int, district: string, fullName: string, children: seq<string>)
      ensures this.campsiteId == campsiteId && this.permitAreaId == permitAreaId
      ensures this.district == district && this.fullName == fullName && this.children == children
      ensures records == []
    {
      this.campsiteId := campsiteId;
      this.permitAreaId := permitAreaId;
      this.district := district;
      this.fullName := fullName;
      this.children := children;
      records := [];
    }

    /** The `name` property: the words after the first standalone `-`, single-spaced. */
    function Name(): (r: Result<string>)
      ensures r.Failure? <==> "-" !in Words(fullName)
      ensures r.Failure? ==> r.error.ValueError?
      ensures r.Success? ==>
        exists i :: 0 <= i < |Words(fullName)| && Words(fullName)[i] == "-" &&
          "-" !in Words(fullName)[..i] && r.value == Join(Words(fullName)[i + 1..], ' ')
    {
      var parts := Words(fullName);
      match IndexOfToken(parts, "-")
      case None => Failure(ValueError("'-' is not in list"))
      case Some(i) => Success(Join(parts[i + 1..], ' '))
    }

    /**
     * The `abbreviation` property: the word just before the first standalone `-`;
     * with the `-` first, Python's index -1 gives the last word.
     */
    function Abbreviation(): (r: Result<string>)
      ensures r.Failure? <==> "-" !in Words(fullName)
      ensures r.Failure? ==> r.error.ValueError?
      ensures r.Success? ==> r.value in Words(fullName)
      ensures r.Success? ==>
        exists i :: 0 <= i < |Words(fullName)| && Words(fullName)[i] == "-" &&
          "-" !in Words(fullName)[..i] &&
          r.value == (if i >= 1 then Words(fullName)[i - 1] else Words(fullName)[|Words(fullName)| - 1])
    {
      var parts := Words(fullName);
      match IndexOfToken(parts, "-")
      case None => Failure(ValueError("'-' is not in list"))
      case Some(i) =>
        var v := if i >= 1 then parts[i - 1] else parts[|parts| - 1];
        assert 0 <= i < |parts| && parts[i] == "-" && "-" !in parts[..i];
        assert v == (if i >= 1 then parts[i - 1] else parts[|parts| - 1]);
        Success(v)
    }

    /** The `availabilities` property: the records sorted by date, ties in insertion order. */
    function Availabilities(): (r: seq<CampsiteAvailability>)
      reads this
      ensures SortedBy(r, SiteDate) && multiset(r) == multiset(records)
      ensures forall k :: WithKey(r, SiteDate, k) == WithKey(records, SiteDate, k)
    {
      SortBySorted(records, SiteDate);
      SortByPermutation(records, SiteDate);
      forall k ensures WithKey(SortBy(records, SiteDate), SiteDate, k) == WithKey(records, SiteDate, k) {
        SortByStable(records, SiteDate, k);
      }
      SortBy(records, SiteDate)
    }

    method SaveAvailability(date: int, dateData: DateData)
      modifies this
      ensures records == old(records) + [CampsiteAvailability(date, dateData.total, dateData.remaining, dateData.showWalkup)]
    {
      records := records + [CampsiteAvailability(date, dateData.total, dateData.remaining, dateData.showWalkup)];
    }

    /**
     * `available_dates(sites)`, ascending; a date is listed iff one of its records has room,
     * and once per such record.
     */
    function AvailableDates(sites: int): (r: seq<int>)
      reads this
      ensures Ascending(r)
      ensures forall d :: d in r ==>
        exists a :: a in records && a.availableSites > 0 && a.totalSites >= sites && a.date == d
      ensures forall a :: a in records && a.availableSites > 0 && a.totalSites >= sites ==> a.date in r
      ensures multiset(r) == SelectedKeys(records, SiteDate, HasSitesFor(sites))
    {
      DatesWhereMultiplicity(records, SiteDate, HasSitesFor(sites));
      DatesWhereAscending(records, SiteDate, HasSitesFor(sites));
      forall d ensures d in DatesWhere(records, SiteDate, HasSitesFor(sites)) <==>
        exists a :: a in records && a.availableSites > 0 && a.totalSites >= sites && a.date == d
      {
        DatesWhereMembers(records, SiteDate, HasSitesFor(sites), d);
      }
      DatesWhere(records, SiteDate, HasSitesFor(sites))
    }
  }

  /**
   * For a full name whose words are some words, a standalone `-` and more words: `name` is
   * the words after the `-` single-spaced, and `abbreviation` the word before it (or, with
   * nothing before it, the last word). Any whitespace may separate the words.
   */
  lemma NameAndAbbreviationOf(c: Campsite, before: seq<string>, after: seq<string>)
    requires "-" !in before
    requires Words(c.fullName) == before + ["-"] + after
    ensures c.Name() == Success(Join(after, ' '))
    ensures c.Abbreviation() == Success(
      if |before| >= 1 then before[|before| - 1]
      else if |after| >= 1 then after[|after| - 1]
      else "-")
  {
    var parts := before + ["-"] + after;
    IndexOfTokenAfter(before, "-", after);
    assert parts[|before| + 1..] == after;
  }

  /** Asking for one more site can only drop dates: the result is a sub-list. */
  lemma MoreSitesFewerDates(c: Campsite, sites: int)
    ensures IsSubsequence(c.AvailableDates(sites + 1), c.AvailableDates(sites))
  {
    DatesWhereStronger(c.records, SiteDate, HasSitesFor(sites + 1), HasSitesFor(sites));
  }
}
