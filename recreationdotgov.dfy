/**
 * The adaptation layer of `recyoself.recreationdotgov`: which months are fetched, which
 * endpoint a division query goes to, which quota map is read, and how fetched day entries
 * become timeline records when they fall inside the requested window.
 *
 * The HTTP call is a parameter: `fetch(url, ...)` stands for the decoded JSON answer to that
 * request, with a JSON object modelled as its `items()` in order.
 */
module RecreationDotGov {
  import opened Wrappers
  import opened Strings
  import opened Dates
  import opened Lotteries
  import Divisions
  import DivisionAvailabilities
  import CampsiteAvailabilities

  // ---------------------------------------------------------------------------
  // Query context
  // ---------------------------------------------------------------------------

  /** `lottery_id` and `in_eap` as `make_division_availabilities` derives them. */
  datatype FetchContext = FetchContext(lotteryId: Option<string>, inEap: bool)

  function ContextOf(lottery: Option<Lottery>, now: int): FetchContext {
    match lottery
    case None => FetchContext(None, false)
    case Some(l) => FetchContext(Some(l.lotteryId), InEarlyAccess(l, now))
  }

  /** Without a lottery there is no lottery id and no early access; with one, both come from it. */
  lemma ContextOfLottery(lottery: Option<Lottery>, now: int)
    ensures lottery.None? ==> ContextOf(lottery, now) == FetchContext(None, false)
    ensures lottery.Some? ==> ContextOf(lottery, now).lotteryId == Some(lottery.value.lotteryId)
    ensures ContextOf(lottery, now).inEap <==>
      lottery.Some? && lottery.value.accessStartAt < now < lottery.value.accessEndAt
  {
  }

  /** `range(start.month, end.month + 1)`: the months queried, all in `start.year`. */
  function MonthsToFetch(start: Ymd, end: Ymd): (months: seq<nat>)
    requires Valid(start) && Valid(end)
  {
    var n := if end.month >= start.month then end.month - start.month + 1 else 0;
    seq(n, k requires 0 <= k < n => start.month + k)
  }

  /**
   * The months run from the start month up to the end month, one each, in order; an end month
   * before the start month queries nothing.
   */
  lemma MonthsToFetchRange(start: Ymd, end: Ymd)
    requires Valid(start) && Valid(end)
    ensures var months := MonthsToFetch(start, end);
      && (end.month < start.month <==> months == [])
      && (forall m :: m in months <==> start.month <= m <= end.month)
      && (forall i, j :: 0 <= i < j < |months| ==> months[i] < months[j])
      && (forall i :: 0 <= i < |months| ==> 1 <= months[i] <= 12)
  {
    var months := MonthsToFetch(start, end);
    forall m | start.month <= m <= end.month ensures m in months {
      assert months[m - start.month] == m;
    }
  }

  /** `start_date <= date <= end_date`. */
  predicate InWindow(start: Ymd, end: Ymd, d: Ymd) {
    DateLe(start, d) && DateLe(d, end)
  }

  /** Inside the window exactly when the day number lies between the window's. */
  lemma InWindowOrdinal(start: Ymd, end: Ymd, d: Ymd)
    requires Valid(start) && Valid(end) && Valid(d)
    ensures InWindow(start, end, d) <==> Ordinal(start) <= Ordinal(d) <= Ordinal(end)
  {
    DateLeOrdinal(start, d);
    DateLeOrdinal(d, end);
  }

  /** The `ValueError` `strptime` raises for text that does not fit its format. */
  function StrptimeError(text: string, format: string): Error {
    ValueError("time data '" + text + "' does not match format '" + format + "'")
  }

  // ---------------------------------------------------------------------------
  // `_get_division_availabilities`: endpoint and quota map
  // ---------------------------------------------------------------------------

  function AvailabilitySegment(inEap: bool): string {
    if inEap then "eapavailability" else "availability"
  }

  /** The path segments of a division availability request. */
  function EndpointParts(facilityId: string, divisionId: int, lotteryId: Option<string>, inEap: bool): seq<string> {
    ["permititinerary", facilityId, "division", IntToString(divisionId), AvailabilitySegment(inEap), "month"]
    + (if lotteryId.Some? && inEap then [lotteryId.value] else [])
  }

  /**
   * The request path `permititinerary/<facility>/division/<division>/<segment>/month`, with
   * `/<lottery>` appended in early access: its segments joined by `/`.
   */
  function DivisionEndpoint(facilityId: string, divisionId: int, lotteryId: Option<string>, inEap: bool): string {
    Join(EndpointParts(facilityId, divisionId, lotteryId, inEap), '/')
  }

  lemma IntToStringNoSlash(i: int)
    ensures '/' !in IntToString(i)
  {
    var s := NatToString(if i < 0 then -i else i);
    assert forall k :: 0 <= k < |s| ==> s[k] != '/';
    if i < 0 {
      assert IntToString(i) == "-" + s;
    }
  }

  /**
   * With ids free of `/`, the request path splits back into its segments: the fifth is
   * `eapavailability` exactly in early access, and the lottery id is a seventh segment exactly
   * when there is a lottery id and early access holds.
   */
  lemma DivisionEndpointSegments(facilityId: string, divisionId: int, lotteryId: Option<string>, inEap: bool)
    requires '/' !in facilityId
    requires lotteryId.Some? ==> '/' !in lotteryId.value
    ensures var parts := Split(DivisionEndpoint(facilityId, divisionId, lotteryId, inEap), '/');
      && parts == EndpointParts(facilityId, divisionId, lotteryId, inEap)
      && (parts[4] == "eapavailability" <==> inEap)
      && (parts[4] == "availability" <==> !inEap)
      && (|parts| == 7 <==> lotteryId.Some? && inEap)
      && (|parts| == 7 ==> parts[6] == lotteryId.value)
  {
    var parts := EndpointParts(facilityId, divisionId, lotteryId, inEap);
    IntToStringNoSlash(divisionId);
    assert forall k :: 0 <= k < |parts| ==> '/' !in parts[k];
    SplitJoin(parts, '/');
  }

  /** One date's `total`, `remaining` and `show_walkup` of a quota map. */
  datatype DayQuota = DayQuota(total: int, remaining: int, showWalkup: bool)

  /** A quota map: date text to that day's quota, in the payload's order. */
  type QuotaMap = seq<(string, DayQuota)>

  /** `quota_type_maps`: the quota maps of a response by their type name. */
  type QuotaMaps = map<string, QuotaMap>

  /** The division endpoint: `(url, month, year)` to the response's `quota_type_maps` (empty when absent). */
  type DivisionFetch = (string, int, int) -> QuotaMaps

  const BySite := "QuotaUsageBySiteDaily"
  const Constant := "ConstantQuotaUsageDaily"

  function Lookup(quotas: QuotaMaps, key: string): QuotaMap {
    if key in quotas then quotas[key] else []
  }

  /** `quotas.get(BySite, {}) or quotas.get(Constant, {})`. */
  function SelectQuotaMap(quotas: QuotaMaps): QuotaMap {
    if Lookup(quotas, BySite) != [] then Lookup(quotas, BySite) else Lookup(quotas, Constant)
  }

  /**
   * The per-site map wins whenever it is non-empty; otherwise the constant map is read, and
   * the answer is empty only when both are.
   */
  lemma SelectQuotaMapFallback(quotas: QuotaMaps)
    ensures BySite in quotas && quotas[BySite] != [] ==> SelectQuotaMap(quotas) == quotas[BySite]
    ensures (BySite !in quotas || quotas[BySite] == []) && Constant in quotas ==>
      SelectQuotaMap(quotas) == quotas[Constant]
    ensures SelectQuotaMap(quotas) == [] <==> Lookup(quotas, BySite) == [] && Lookup(quotas, Constant) == []
  {
  }

  /** `_get_division_availabilities(facility_id, division_id, lottery_id, month, year, in_eap)`. */
  function GetDivisionAvailabilities(fetch: DivisionFetch, facilityId: string, divisionId: int,
                                     lotteryId: Option<string>, month: int, year: int, inEap: bool): QuotaMap
  {
    SelectQuotaMap(fetch(DivisionEndpoint(facilityId, divisionId, lotteryId, inEap), month, year))
  }

  // ---------------------------------------------------------------------------
  // `make_division_availabilities`
  // ---------------------------------------------------------------------------

  /** The record `set_availability` adds for day `d`, or none when `d` is outside the window. */
  function DayRecord(start: Ymd, end: Ymd, d: Ymd, q: DayQuota): seq<DivisionAvailabilities.AvailabilityInfo>
    requires Valid(d)
  {
    if InWindow(start, end, d) then [DivisionAvailabilities.AvailabilityInfo(Ordinal(d), q.total, q.remaining, q.showWalkup)]
    else []
  }

  /** The records one quota map yields, in its order; the first unparsable date fails. */
  function DayRecords(start: Ymd, end: Ymd, entries: QuotaMap): Result<seq<DivisionAvailabilities.AvailabilityInfo>>
    decreases |entries|
  {
    if entries == [] then Success([])
    else
      match DayRecords(start, end, entries[..|entries| - 1])
      case Failure(e) => Failure(e)
      case Success(prev) =>
        var (text, q) := entries[|entries| - 1];
        match ParseIsoDate(text)
        case None => Failure(StrptimeError(text, "%Y-%m-%d"))
        case Some(d) => Success(prev + DayRecord(start, end, d, q))
  }

  /** The records of all months queried, month after month. */
  function DivisionRecords(start: Ymd, end: Ymd, fetch: DivisionFetch, facilityId: string, divisionId: int,
                           ctx: FetchContext, months: seq<nat>): Result<seq<DivisionAvailabilities.AvailabilityInfo>>
    decreases |months|
  {
    if months == [] then Success([])
    else
      match DivisionRecords(start, end, fetch, facilityId, divisionId, ctx, months[..|months| - 1])
      case Failure(e) => Failure(e)
      case Success(prev) =>
        var entries := GetDivisionAvailabilities(fetch, facilityId, divisionId, ctx.lotteryId,
                                                 months[|months| - 1], start.year, ctx.inEap);
        match DayRecords(start, end, entries)
        case Failure(e) => Failure(e)
        case Success(recs) => Success(prev + recs)
  }

  /** Entry `k` of a quota map parses to an in-window date and gives record `r`. */
  predicate EntryGives(start: Ymd, end: Ymd, entries: QuotaMap, k: nat, r: DivisionAvailabilities.AvailabilityInfo) {
    && k < |entries|
    && ParseIsoDate(entries[k].0).Some?
    && var d := ParseIsoDate(entries[k].0).value;
      InWindow(start, end, d) && r == DivisionAvailabilities.AvailabilityInfo(Ordinal(d), entries[k].1.total, entries[k].1.remaining, entries[k].1.showWalkup)
  }

  ghost predicate FromSomeEntry(start: Ymd, end: Ymd, entries: QuotaMap, r: DivisionAvailabilities.AvailabilityInfo) {
    exists k: nat :: EntryGives(start, end, entries, k, r)
  }

  /** A quota map fails to convert exactly when one of its dates does not parse. */
  lemma {:induction false} DayRecordsFailure(start: Ymd, end: Ymd, entries: QuotaMap)
    ensures DayRecords(start, end, entries).Failure? <==>
      exists k :: 0 <= k < |entries| && ParseIsoDate(entries[k].0).None?
    decreases |entries|
  {
    if entries != [] {
      var init := entries[..|entries| - 1];
      DayRecordsFailure(start, end, init);
      assert forall k :: 0 <= k < |init| ==> init[k] == entries[k];
    }
  }

  lemma DayRecordsSnoc(start: Ymd, end: Ymd, entries: QuotaMap)
    requires entries != [] && DayRecords(start, end, entries).Success?
    ensures var init := entries[..|entries| - 1];
      && DayRecords(start, end, init).Success?
      && ParseIsoDate(entries[|entries| - 1].0).Some?
      && DayRecords(start, end, entries).value ==
        DayRecords(start, end, init).value
        + DayRecord(start, end, ParseIsoDate(entries[|entries| - 1].0).value, entries[|entries| - 1].1)
  {
  }

  lemma EntryGivesPrefix(start: Ymd, end: Ymd, entries: QuotaMap, n: nat, k: nat, r: DivisionAvailabilities.AvailabilityInfo)
    requires k < n <= |entries|
    ensures EntryGives(start, end, entries[..n], k, r) <==> EntryGives(start, end, entries, k, r)
  {
    assert entries[..n][k] == entries[k];
  }

  lemma FromSomeEntrySnoc(start: Ymd, end: Ymd, entries: QuotaMap, r: DivisionAvailabilities.AvailabilityInfo)
    requires entries != [] && ParseIsoDate(entries[|entries| - 1].0).Some?
    ensures var last := |entries| - 1;
      FromSomeEntry(start, end, entries, r) <==>
        FromSomeEntry(start, end, entries[..last], r)
        || r in DayRecord(start, end, ParseIsoDate(entries[last].0).value, entries[last].1)
  {
    var last := |entries| - 1;
    var init := entries[..last];
    var d := ParseIsoDate(entries[last].0).value;
    if FromSomeEntry(start, end, init, r) {
      var k: nat :| EntryGives(start, end, init, k, r);
      EntryGivesPrefix(start, end, entries, last, k, r);
    }
    if FromSomeEntry(start, end, entries, r) {
      var k: nat :| EntryGives(start, end, entries, k, r);
      if k < last {
        EntryGivesPrefix(start, end, entries, last, k, r);
      } else {
        assert DayRecord(start, end, d, entries[last].1) == [r];
      }
    }
    if r in DayRecord(start, end, d, entries[last].1) {
      assert EntryGives(start, end, entries, last, r);
    }
  }

  /**
   * A record is produced exactly when some entry's date parses, lies inside the window, and
   * the record copies that day's number, `total`, `remaining` and `show_walkup`.
   */
  lemma {:induction false} DayRecordsMembers(start: Ymd, end: Ymd, entries: QuotaMap, r: DivisionAvailabilities.AvailabilityInfo)
    requires DayRecords(start, end, entries).Success?
    ensures r in DayRecords(start, end, entries).value <==> FromSomeEntry(start, end, entries, r)
    decreases |entries|
  {
    if entries != [] {
      DayRecordsSnoc(start, end, entries);
      DayRecordsMembers(start, end, entries[..|entries| - 1], r);
      FromSomeEntrySnoc(start, end, entries, r);
    }
  }

  lemma {:induction false} DayRecordsFailurePersists(start: Ymd, end: Ymd, entries: QuotaMap, n: nat)
    requires n <= |entries| && DayRecords(start, end, entries[..n]).Failure?
    ensures DayRecords(start, end, entries).Failure?
    decreases |entries|
  {
    if n < |entries| {
      var init := entries[..|entries| - 1];
      assert init[..n] == entries[..n];
      DayRecordsFailurePersists(start, end, init, n);
    } else {
      assert entries[..n] == entries;
    }
  }

  lemma {:induction false} DivisionRecordsFailurePersists(start: Ymd, end: Ymd, fetch: DivisionFetch, facilityId: string,
                                                          divisionId: int, ctx: FetchContext, months: seq<nat>, n: nat)
    requires n <= |months| && DivisionRecords(start, end, fetch, facilityId, divisionId, ctx, months[..n]).Failure?
    ensures DivisionRecords(start, end, fetch, facilityId, divisionId, ctx, months).Failure?
    decreases |months|
  {
    if n < |months| {
      var init := months[..|months| - 1];
      assert init[..n] == months[..n];
      DivisionRecordsFailurePersists(start, end, fetch, facilityId, divisionId, ctx, init, n);
    } else {
      assert months[..n] == months;
    }
  }

  /** Every record comes from some queried month's entries, and every such entry gives a record. */
  lemma {:induction false} DivisionRecordsMembers(start: Ymd, end: Ymd, fetch: DivisionFetch, facilityId: string,
                                                  divisionId: int, ctx: FetchContext, months: seq<nat>,
                                                  r: DivisionAvailabilities.AvailabilityInfo)
    requires DivisionRecords(start, end, fetch, facilityId, divisionId, ctx, months).Success?
    ensures r in DivisionRecords(start, end, fetch, facilityId, divisionId, ctx, months).value <==>
      exists i :: 0 <= i < |months| &&
        FromSomeEntry(start, end, GetDivisionAvailabilities(fetch, facilityId, divisionId, ctx.lotteryId, months[i], start.year, ctx.inEap), r)
    decreases |months|
  {
    if months != [] {
      var last := |months| - 1;
      var init := months[..last];
      DivisionRecordsMembers(start, end, fetch, facilityId, divisionId, ctx, init, r);
      var entries := GetDivisionAvailabilities(fetch, facilityId, divisionId, ctx.lotteryId, months[last], start.year, ctx.inEap);
      DayRecordsMembers(start, end, entries, r);
      assert forall i :: 0 <= i < last ==> init[i] == months[i];
    }
  }

  /** Every record's day lies inside the requested window. */
  lemma DivisionRecordsInWindow(start: Ymd, end: Ymd, fetch: DivisionFetch, facilityId: string,
                                divisionId: int, ctx: FetchContext, months: seq<nat>,
                                r: DivisionAvailabilities.AvailabilityInfo)
    requires Valid(start) && Valid(end)
    requires DivisionRecords(start, end, fetch, facilityId, divisionId, ctx, months).Success?
    requires r in DivisionRecords(start, end, fetch, facilityId, divisionId, ctx, months).value
    ensures Ordinal(start) <= r.date <= Ordinal(end)
  {
    DivisionRecordsMembers(start, end, fetch, facilityId, divisionId, ctx, months, r);
    var i :| 0 <= i < |months| &&
      FromSomeEntry(start, end, GetDivisionAvailabilities(fetch, facilityId, divisionId, ctx.lotteryId, months[i], start.year, ctx.inEap), r);
    var entries := GetDivisionAvailabilities(fetch, facilityId, divisionId, ctx.lotteryId, months[i], start.year, ctx.inEap);
    var k: nat :| EntryGives(start, end, entries, k, r);
    InWindowOrdinal(start, end, ParseIsoDate(entries[k].0).value);
  }

  /** An end month before the start month queries nothing and gives no records. */
  lemma BackwardsMonthsNoRecords(start: Ymd, end: Ymd, fetch: DivisionFetch, facilityId: string,
                                 divisionId: int, ctx: FetchContext)
    requires Valid(start) && Valid(end) && end.month < start.month
    ensures DivisionRecords(start, end, fetch, facilityId, divisionId, ctx, MonthsToFetch(start, end)) == Success([])
  {
    MonthsToFetchRange(start, end);
  }

  lemma DayRecordsStep(start: Ymd, end: Ymd, entries: QuotaMap, k: nat, d: Ymd)
    requires k < |entries| && DayRecords(start, end, entries[..k]).Success?
    requires ParseIsoDate(entries[k].0) == Some(d)
    ensures DayRecords(start, end, entries[..k + 1]) ==
      Success(DayRecords(start, end, entries[..k]).value + DayRecord(start, end, d, entries[k].1))
  {
    assert entries[..k + 1][..k] == entries[..k];
  }

  lemma DayRecordsStepFails(start: Ymd, end: Ymd, entries: QuotaMap, k: nat)
    requires k < |entries| && DayRecords(start, end, entries[..k]).Success?
    requires ParseIsoDate(entries[k].0).None?
    ensures DayRecords(start, end, entries).Failure?
  {
    assert entries[..k + 1][..k] == entries[..k];
    DayRecordsFailurePersists(start, end, entries, k + 1);
  }

  lemma DivisionRecordsStep(start: Ymd, end: Ymd, fetch: DivisionFetch, facilityId: string,
                            divisionId: int, ctx: FetchContext, months: seq<nat>, i: nat, recs: seq<DivisionAvailabilities.AvailabilityInfo>)
    requires i < |months| && DivisionRecords(start, end, fetch, facilityId, divisionId, ctx, months[..i]).Success?
    requires DayRecords(start, end, GetDivisionAvailabilities(fetch, facilityId, divisionId, ctx.lotteryId, months[i], start.year, ctx.inEap)) == Success(recs)
    ensures DivisionRecords(start, end, fetch, facilityId, divisionId, ctx, months[..i + 1]) ==
      Success(DivisionRecords(start, end, fetch, facilityId, divisionId, ctx, months[..i]).value + recs)
  {
    assert months[..i + 1][..i] == months[..i];
  }

  lemma DivisionRecordsStepFails(start: Ymd, end: Ymd, fetch: DivisionFetch, facilityId: string,
                                 divisionId: int, ctx: FetchContext, months: seq<nat>, i: nat)
    requires i < |months| && DivisionRecords(start, end, fetch, facilityId, divisionId, ctx, months[..i]).Success?
    requires DayRecords(start, end, GetDivisionAvailabilities(fetch, facilityId, divisionId, ctx.lotteryId, months[i], start.year, ctx.inEap)).Failure?
    ensures DivisionRecords(start, end, fetch, facilityId, divisionId, ctx, months).Failure?
  {
    assert months[..i + 1][..i] == months[..i];
    DivisionRecordsFailurePersists(start, end, fetch, facilityId, divisionId, ctx, months, i + 1);
  }

  /**
   * The inner loop of `make_division_availabilities`: one quota map's in-window days are
   * added to `divAvail`, in order, until a date fails to parse.
   */
  method AddQuotaMap(divAvail: DivisionAvailabilities.DivisionAvailability, start: Ymd, end: Ymd, availabilitiesByDate: QuotaMap)
    returns (failed: Option<Error>)
    modifies divAvail
    ensures failed.None? <==> DayRecords(start, end, availabilitiesByDate).Success?
    ensures failed.None? ==> divAvail.records == old(divAvail.records) + DayRecords(start, end, availabilitiesByDate).value
  {
    for k := 0 to |availabilitiesByDate|
      invariant DayRecords(start, end, availabilitiesByDate[..k]).Success?
      invariant divAvail.records == old(divAvail.records) + DayRecords(start, end, availabilitiesByDate[..k]).value
    {
      var (dateText, availData) := availabilitiesByDate[k];
      var parsed := ParseIsoDate(dateText);
      if parsed.None? {
        DayRecordsStepFails(start, end, availabilitiesByDate, k);
        return Some(StrptimeError(dateText, "%Y-%m-%d"));
      }
      var date := parsed.value;
      DayRecordsStep(start, end, availabilitiesByDate, k, date);
      if DateLe(start, date) && DateLe(date, end) {
        divAvail.SetAvailability(Ordinal(date), availData.total, availData.remaining, availData.showWalkup);
      }
    }
    assert availabilitiesByDate[..|availabilitiesByDate|] == availabilitiesByDate;
    return None;
  }

  /**
   * `make_division_availabilities`: a new timeline for `division` holding, in fetch order, a
   * record for every in-window day of every queried month; a date `strptime` rejects raises.
   */
  method MakeDivisionAvailabilities(start: Ymd, end: Ymd, facilityId: string, division: Divisions.Division,
                                    lottery: Option<Lottery>, now: int, fetch: DivisionFetch)
    returns (r: Result<DivisionAvailabilities.DivisionAvailability>)
    requires Valid(start) && Valid(end)
    ensures var spec := DivisionRecords(start, end, fetch, facilityId, division.divisionId,
                                        ContextOf(lottery, now), MonthsToFetch(start, end));
      && (r.Success? <==> spec.Success?)
      && (r.Success? ==> fresh(r.value) && r.value.division == division && r.value.records == spec.value)
  {
    var facId := facilityId;
    var divId := division.divisionId;
    var ctx := ContextOf(lottery, now);
    var lotteryId := ctx.lotteryId;
    var inEap := ctx.inEap;
    var months := MonthsToFetch(start, end);
    var year := start.year;

    var divAvail := new DivisionAvailabilities.DivisionAvailability(division);
    for i := 0 to |months|
      invariant fresh(divAvail) && divAvail.division == division
      invariant DivisionRecords(start, end, fetch, facId, divId, ctx, months[..i]) == Success(divAvail.records)
    {
      var month := months[i];
      var availabilitiesByDate := GetDivisionAvailabilities(fetch, facId, divId, lotteryId, month, year, inEap);
      var failed := AddQuotaMap(divAvail, start, end, availabilitiesByDate);
      if failed.Some? {
        DivisionRecordsStepFails(start, end, fetch, facId, divId, ctx, months, i);
        return Failure(failed.value);
      }
      DivisionRecordsStep(start, end, fetch, facId, divId, ctx, months, i, DayRecords(start, end, availabilitiesByDate).value);
    }
    assert months[..|months|] == months;
    return Success(divAvail);
  }

  // ---------------------------------------------------------------------------
  // `_get_campsite_availabilities` and `make_campsite_availabilities`
  // ---------------------------------------------------------------------------

  /** One campsite of a month's answer: its id and its (timestamp text, status label) entries. */
  datatype SitePayload = SitePayload(campsiteId: string, availabilities: seq<(string, string)>)

  /** The campground endpoint: `(url, start_date)` to the response's `campsites` (empty when absent). */
  type CampsiteFetch = (string, string) -> seq<SitePayload>

  function CampsiteEndpoint(facilityId: string): string {
    "camps/availability/campground/" + facilityId + "/month"
  }

  /** The `start_date` parameter: `<year>-<MM>-01T00:00:00.000Z`. */
  function CampsiteMonthParam(year: int, month: nat): string {
    IntToString(year) + "-" + ZFill2(month) + "-01T00:00:00.000Z"
  }

  lemma ZFill2IsPadded(n: nat)
    requires n < 100
    ensures ZFill2(n) == PadDigits(n, 2)
  {
    if n < 10 {
      assert PadDigits(n / 10, 1) == PadDigits(0, 0) + [Digit(0)];
    } else {
      NatToStringIsPadded(n, 2);
    }
  }

  /**
   * For a four-digit year the parameter is the ISO form of the month's first day followed by
   * midnight UTC, so it reads back as that day.
   */
  lemma FourDigitYearText(year: int)
    requires 1000 <= year <= 9999
    ensures IntToString(year) == PadDigits(year, 4)
  {
    assert Pow10(3) == 1000 && Pow10(4) == 10000 by {
      assert Pow10(1) == 10 && Pow10(2) == 100;
    }
    NatToStringIsPadded(year, 4);
  }

  lemma MidnightSuffix(ys: string, ms: string)
    ensures ys + "-" + ms + "-01T00:00:00.000Z" == ys + "-" + ms + "-" + PadDigits(1, 2) + "T00:00:00.000Z"
  {
    assert PadDigits(1, 2) == "01" by {
      assert PadDigits(0, 1) == PadDigits(0, 0) + [Digit(0)];
    }
    var tail := "T00:00:00.000Z";
    assert "-01T00:00:00.000Z" == "-" + "01" + tail;
  }

  lemma CampsiteMonthParamIso(year: int, month: nat)
    requires 1000 <= year <= 9999 && 1 <= month <= 12
    ensures CampsiteMonthParam(year, month) == FormatIsoDate(Ymd(year, month, 1)) + "T00:00:00.000Z"
  {
    FourDigitYearText(year);
    ZFill2IsPadded(month);
    MidnightSuffix(PadDigits(year, 4), PadDigits(month, 2));
  }

  /**
   * For a four-digit year the parameter is the ISO form of the month's first day followed by
   * midnight UTC, so it reads back as that day.
   */
  lemma CampsiteMonthParamFormat(year: int, month: nat)
    requires 1000 <= year <= 9999 && 1 <= month <= 12
    ensures var p := CampsiteMonthParam(year, month);
      && p == FormatIsoDate(Ymd(year, month, 1)) + "T00:00:00.000Z"
      && ParseIsoDate(p[..10]) == Some(Ymd(year, month, 1))
  {
    CampsiteMonthParamIso(year, month);
    var p := CampsiteMonthParam(year, month);
    assert p[..10] == FormatIsoDate(Ymd(year, month, 1));
    ParseFormatIsoDate(Ymd(year, month, 1));
  }

  /** `_get_campsite_availabilities(facility_id, month, year)`. */
  function GetCampsiteAvailabilities(fetch: CampsiteFetch, facilityId: string, month: nat, year: int): seq<SitePayload> {
    fetch(CampsiteEndpoint(facilityId), CampsiteMonthParam(year, month))
  }

  /** The record `add_availability` adds for day `d`, or none when `d` is outside the window. */
  function StatusRecord(start: Ymd, end: Ymd, d: Ymd, status: string): seq<CampsiteAvailabilities.CampsiteAvailabilityInfo>
    requires Valid(d)
  {
    if InWindow(start, end, d) then [CampsiteAvailabilities.CampsiteAvailabilityInfo(Ordinal(d), status)] else []
  }

  /** The records one campsite's entries yield, in order; the first unparsable timestamp fails. */
  function StatusRecords(start: Ymd, end: Ymd, entries: seq<(string, string)>): Result<seq<CampsiteAvailabilities.CampsiteAvailabilityInfo>>
    decreases |entries|
  {
    if entries == [] then Success([])
    else
      match StatusRecords(start, end, entries[..|entries| - 1])
      case Failure(e) => Failure(e)
      case Success(prev) =>
        var (text, status) := entries[|entries| - 1];
        match ParseIsoTimestamp(text)
        case None => Failure(StrptimeError(text, "%Y-%m-%dT%H:%M:%SZ"))
        case Some(d) => Success(prev + StatusRecord(start, end, d, status))
  }

  /** A campsite id with the records its object ends up holding. */
  type Batch = (string, seq<CampsiteAvailabilities.CampsiteAvailabilityInfo>)

  /** Every campsite of one month's answer has only timestamps `strptime` accepts. */
  predicate SitesParse(start: Ymd, end: Ymd, sites: seq<SitePayload>) {
    forall k :: 0 <= k < |sites| ==> StatusRecords(start, end, sites[k].availabilities).Success?
  }

  /** One object per campsite of one month's answer, in order, each with that campsite's records. */
  function SiteBatches(start: Ymd, end: Ymd, sites: seq<SitePayload>): seq<Batch>
    requires SitesParse(start, end, sites)
  {
    seq(|sites|, k requires 0 <= k < |sites| && SitesParse(start, end, sites) =>
      (sites[k].campsiteId, StatusRecords(start, end, sites[k].availabilities).value))
  }

  /** The answers to the month queries, in query order. */
  function MonthAnswers(fetch: CampsiteFetch, facilityId: string, year: int, months: seq<nat>): seq<seq<SitePayload>> {
    seq(|months|, i requires 0 <= i < |months| => GetCampsiteAvailabilities(fetch, facilityId, months[i], year))
  }

  /** The objects built from a run of month answers; `None` when a timestamp fails to parse. */
  function BatchesOf(start: Ymd, end: Ymd, answers: seq<seq<SitePayload>>): Option<seq<Batch>>
    decreases |answers|
  {
    if answers == [] then Some([])
    else
      var prev := BatchesOf(start, end, answers[..|answers| - 1]);
      var sites := answers[|answers| - 1];
      if prev.Some? && SitesParse(start, end, sites) then Some(prev.value + SiteBatches(start, end, sites)) else None
  }

  /** The objects of all months queried, month after month; `None` when a timestamp fails to parse. */
  function CampsiteBatches(start: Ymd, end: Ymd, fetch: CampsiteFetch, facilityId: string, months: seq<nat>): Option<seq<Batch>> {
    BatchesOf(start, end, MonthAnswers(fetch, facilityId, start.year, months))
  }

  /** The campsite ids of one month's answer, in order. */
  function SiteIds(sites: seq<SitePayload>): seq<string> {
    seq(|sites|, k requires 0 <= k < |sites| => sites[k].campsiteId)
  }

  /** The campsite ids of a run of month answers, answer after answer. */
  function AnswerIds(answers: seq<seq<SitePayload>>): seq<string>
    decreases |answers|
  {
    if answers == [] then [] else AnswerIds(answers[..|answers| - 1]) + SiteIds(answers[|answers| - 1])
  }

  /** The campsite ids of every month's answer, month after month: one per (month, campsite) pair. */
  function FetchedIds(fetch: CampsiteFetch, facilityId: string, year: int, months: seq<nat>): seq<string> {
    AnswerIds(MonthAnswers(fetch, facilityId, year, months))
  }

  function BatchIds(batches: seq<Batch>): seq<string> {
    seq(|batches|, k requires 0 <= k < |batches| => batches[k].0)
  }

  /** Entry `k` of a campsite's entries parses to an in-window day and gives record `r`. */
  predicate StatusGives(start: Ymd, end: Ymd, entries: seq<(string, string)>, k: nat, r: CampsiteAvailabilities.CampsiteAvailabilityInfo) {
    && k < |entries|
    && ParseIsoTimestamp(entries[k].0).Some?
    && var d := ParseIsoTimestamp(entries[k].0).value;
      InWindow(start, end, d) && r == CampsiteAvailabilities.CampsiteAvailabilityInfo(Ordinal(d), entries[k].1)
  }

  ghost predicate FromSomeStatus(start: Ymd, end: Ymd, entries: seq<(string, string)>, r: CampsiteAvailabilities.CampsiteAvailabilityInfo) {
    exists k: nat :: StatusGives(start, end, entries, k, r)
  }

  /** A campsite's entries fail to convert exactly when one of its timestamps does not parse. */
  lemma {:induction false} StatusRecordsFailure(start: Ymd, end: Ymd, entries: seq<(string, string)>)
    ensures StatusRecords(start, end, entries).Failure? <==>
      exists k :: 0 <= k < |entries| && ParseIsoTimestamp(entries[k].0).None?
    decreases |entries|
  {
    if entries != [] {
      var init := entries[..|entries| - 1];
      StatusRecordsFailure(start, end, init);
      assert forall k :: 0 <= k < |init| ==> init[k] == entries[k];
    }
  }

  /**
   * A campsite gets a record exactly when one of its timestamps parses to a day inside the
   * window; the record carries that day's number and the status label unchanged.
   */
  lemma StatusRecordsSnoc(start: Ymd, end: Ymd, entries: seq<(string, string)>)
    requires entries != [] && StatusRecords(start, end, entries).Success?
    ensures var init := entries[..|entries| - 1];
      && StatusRecords(start, end, init).Success?
      && ParseIsoTimestamp(entries[|entries| - 1].0).Some?
      && StatusRecords(start, end, entries).value ==
        StatusRecords(start, end, init).value
        + StatusRecord(start, end, ParseIsoTimestamp(entries[|entries| - 1].0).value, entries[|entries| - 1].1)
  {
  }

  lemma StatusGivesPrefix(start: Ymd, end: Ymd, entries: seq<(string, string)>, n: nat, k: nat,
                          r: CampsiteAvailabilities.CampsiteAvailabilityInfo)
    requires k < n <= |entries|
    ensures StatusGives(start, end, entries[..n], k, r) <==> StatusGives(start, end, entries, k, r)
  {
    assert entries[..n][k] == entries[k];
  }

  lemma StatusGivesLast(start: Ymd, end: Ymd, entries: seq<(string, string)>, r: CampsiteAvailabilities.CampsiteAvailabilityInfo)
    requires entries != [] && ParseIsoTimestamp(entries[|entries| - 1].0).Some?
    ensures var last := |entries| - 1;
      StatusGives(start, end, entries, last, r) <==>
        r in StatusRecord(start, end, ParseIsoTimestamp(entries[last].0).value, entries[last].1)
  {
  }

  lemma FromSomeStatusSplit(start: Ymd, end: Ymd, entries: seq<(string, string)>, r: CampsiteAvailabilities.CampsiteAvailabilityInfo)
    requires entries != []
    ensures var last := |entries| - 1;
      FromSomeStatus(start, end, entries, r) <==>
        FromSomeStatus(start, end, entries[..last], r) || StatusGives(start, end, entries, last, r)
  {
    var last := |entries| - 1;
    if FromSomeStatus(start, end, entries[..last], r) {
      var k: nat :| StatusGives(start, end, entries[..last], k, r);
      StatusGivesPrefix(start, end, entries, last, k, r);
    }
    if FromSomeStatus(start, end, entries, r) {
      var k: nat :| StatusGives(start, end, entries, k, r);
      if k < last {
        StatusGivesPrefix(start, end, entries, last, k, r);
      }
    }
  }

  lemma FromSomeStatusSnoc(start: Ymd, end: Ymd, entries: seq<(string, string)>, r: CampsiteAvailabilities.CampsiteAvailabilityInfo)
    requires entries != [] && ParseIsoTimestamp(entries[|entries| - 1].0).Some?
    ensures var last := |entries| - 1;
      FromSomeStatus(start, end, entries, r) <==>
        FromSomeStatus(start, end, entries[..last], r)
        || r in StatusRecord(start, end, ParseIsoTimestamp(entries[last].0).value, entries[last].1)
  {
    FromSomeStatusSplit(start, end, entries, r);
    StatusGivesLast(start, end, entries, r);
  }

  /**
   * A campsite gets a record exactly when one of its timestamps parses to a day inside the
   * window; the record carries that day's number and the status label unchanged.
   */
  lemma {:induction false} StatusRecordsMembers(start: Ymd, end: Ymd, entries: seq<(string, string)>,
                                                r: CampsiteAvailabilities.CampsiteAvailabilityInfo)
    requires StatusRecords(start, end, entries).Success?
    ensures r in StatusRecords(start, end, entries).value <==> FromSomeStatus(start, end, entries, r)
    decreases |entries|
  {
    if entries != [] {
      StatusRecordsSnoc(start, end, entries);
      StatusRecordsMembers(start, end, entries[..|entries| - 1], r);
      FromSomeStatusSnoc(start, end, entries, r);
    }
  }

  lemma {:induction false} BatchesOfFailure(start: Ymd, end: Ymd, answers: seq<seq<SitePayload>>)
    ensures BatchesOf(start, end, answers).None? <==> exists i :: 0 <= i < |answers| && !SitesParse(start, end, answers[i])
    decreases |answers|
  {
    if answers != [] {
      var last := |answers| - 1;
      var init := answers[..last];
      BatchesOfFailure(start, end, init);
      if BatchesOf(start, end, init).None? {
        var i :| 0 <= i < |init| && !SitesParse(start, end, init[i]);
        assert answers[i] == init[i];
      } else if SitesParse(start, end, answers[last]) {
        forall i | 0 <= i < |answers| ensures SitesParse(start, end, answers[i]) {
          if i < last {
            assert answers[i] == init[i];
          }
        }
      }
    }
  }

  /** The search fails exactly when some queried month's answer holds a timestamp that does not parse. */
  lemma CampsiteBatchesFailure(start: Ymd, end: Ymd, fetch: CampsiteFetch, facilityId: string, months: seq<nat>)
    ensures CampsiteBatches(start, end, fetch, facilityId, months).None? <==>
      exists i :: 0 <= i < |months| && !SitesParse(start, end, GetCampsiteAvailabilities(fetch, facilityId, months[i], start.year))
  {
    var answers := MonthAnswers(fetch, facilityId, start.year, months);
    BatchesOfFailure(start, end, answers);
    assert forall i :: 0 <= i < |months| ==> answers[i] == GetCampsiteAvailabilities(fetch, facilityId, months[i], start.year);
  }

  lemma BatchIdsConcat(a: seq<Batch>, b: seq<Batch>)
    ensures BatchIds(a + b) == BatchIds(a) + BatchIds(b)
  {
  }

  lemma SiteBatchesIds(start: Ymd, end: Ymd, sites: seq<SitePayload>)
    requires SitesParse(start, end, sites)
    ensures BatchIds(SiteBatches(start, end, sites)) == SiteIds(sites)
  {
  }

  lemma {:induction false} BatchesOfIds(start: Ymd, end: Ymd, answers: seq<seq<SitePayload>>)
    requires BatchesOf(start, end, answers).Some?
    ensures BatchIds(BatchesOf(start, end, answers).value) == AnswerIds(answers)
    decreases |answers|
  {
    if answers != [] {
      var init := answers[..|answers| - 1];
      var sites := answers[|answers| - 1];
      var prev := BatchesOf(start, end, init).value;
      BatchesOfIds(start, end, init);
      SiteBatchesIds(start, end, sites);
      BatchIdsConcat(prev, SiteBatches(start, end, sites));
    }
  }

  /**
   * The objects' campsite ids are the fetched ids: one object per (month, campsite) pair, in
   * fetch order, whether or not any of its days fall inside the window.
   */
  lemma CampsiteBatchesIds(start: Ymd, end: Ymd, fetch: CampsiteFetch, facilityId: string, months: seq<nat>)
    requires CampsiteBatches(start, end, fetch, facilityId, months).Some?
    ensures BatchIds(CampsiteBatches(start, end, fetch, facilityId, months).value) == FetchedIds(fetch, facilityId, start.year, months)
  {
    BatchesOfIds(start, end, MonthAnswers(fetch, facilityId, start.year, months));
  }

  lemma {:induction false} BatchesOfInWindow(start: Ymd, end: Ymd, answers: seq<seq<SitePayload>>,
                                             k: nat, r: CampsiteAvailabilities.CampsiteAvailabilityInfo)
    requires Valid(start) && Valid(end)
    requires BatchesOf(start, end, answers).Some?
    requires k < |BatchesOf(start, end, answers).value|
    requires r in BatchesOf(start, end, answers).value[k].1
    ensures Ordinal(start) <= r.date <= Ordinal(end)
    decreases |answers|
  {
    var init := answers[..|answers| - 1];
    var prev := BatchesOf(start, end, init).value;
    var sites := answers[|answers| - 1];
    assert BatchesOf(start, end, answers).value == prev + SiteBatches(start, end, sites);
    if k < |prev| {
      BatchesOfInWindow(start, end, init, k, r);
    } else {
      var j := k - |prev|;
      SiteBatchesInWindow(start, end, sites, j, r);
    }
  }

  lemma SiteBatchesInWindow(start: Ymd, end: Ymd, sites: seq<SitePayload>, j: nat, r: CampsiteAvailabilities.CampsiteAvailabilityInfo)
    requires Valid(start) && Valid(end) && SitesParse(start, end, sites)
    requires j < |sites| && r in SiteBatches(start, end, sites)[j].1
    ensures Ordinal(start) <= r.date <= Ordinal(end)
  {
    var entries := sites[j].availabilities;
    StatusRecordsMembers(start, end, entries, r);
    var e: nat :| StatusGives(start, end, entries, e, r);
    InWindowOrdinal(start, end, ParseIsoTimestamp(entries[e].0).value);
  }

  /** No object holds a record of a day outside the requested window. */
  lemma CampsiteBatchesInWindow(start: Ymd, end: Ymd, fetch: CampsiteFetch, facilityId: string,
                                months: seq<nat>, k: nat, r: CampsiteAvailabilities.CampsiteAvailabilityInfo)
    requires Valid(start) && Valid(end)
    requires CampsiteBatches(start, end, fetch, facilityId, months).Some?
    requires k < |CampsiteBatches(start, end, fetch, facilityId, months).value|
    requires r in CampsiteBatches(start, end, fetch, facilityId, months).value[k].1
    ensures Ordinal(start) <= r.date <= Ordinal(end)
  {
    BatchesOfInWindow(start, end, MonthAnswers(fetch, facilityId, start.year, months), k, r);
  }

  lemma StatusRecordsStep(start: Ymd, end: Ymd, entries: seq<(string, string)>, k: nat, d: Ymd)
    requires k < |entries| && StatusRecords(start, end, entries[..k]).Success?
    requires ParseIsoTimestamp(entries[k].0) == Some(d)
    ensures StatusRecords(start, end, entries[..k + 1]) ==
      Success(StatusRecords(start, end, entries[..k]).value + StatusRecord(start, end, d, entries[k].1))
  {
    assert entries[..k + 1][..k] == entries[..k];
  }

  lemma {:induction false} StatusRecordsFailurePersists(start: Ymd, end: Ymd, entries: seq<(string, string)>, n: nat)
    requires n <= |entries| && StatusRecords(start, end, entries[..n]).Failure?
    ensures StatusRecords(start, end, entries).Failure?
    decreases |entries|
  {
    if n < |entries| {
      var init := entries[..|entries| - 1];
      assert init[..n] == entries[..n];
      StatusRecordsFailurePersists(start, end, init, n);
    } else {
      assert entries[..n] == entries;
    }
  }

  lemma StatusRecordsStepFails(start: Ymd, end: Ymd, entries: seq<(string, string)>, k: nat)
    requires k < |entries| && StatusRecords(start, end, entries[..k]).Success?
    requires ParseIsoTimestamp(entries[k].0).None?
    ensures StatusRecords(start, end, entries).Failure?
  {
    assert entries[..k + 1][..k] == entries[..k];
    StatusRecordsFailurePersists(start, end, entries, k + 1);
  }

  lemma SiteBatchesStep(start: Ymd, end: Ymd, sites: seq<SitePayload>, j: nat)
    requires j < |sites| && SitesParse(start, end, sites[..j])
    requires StatusRecords(start, end, sites[j].availabilities).Success?
    ensures SitesParse(start, end, sites[..j + 1])
    ensures SiteBatches(start, end, sites[..j + 1]) ==
      SiteBatches(start, end, sites[..j]) + [(sites[j].campsiteId, StatusRecords(start, end, sites[j].availabilities).value)]
  {
    assert forall k :: 0 <= k < j ==> sites[..j + 1][k] == sites[..j][k];
  }

  lemma MonthAnswersStep(fetch: CampsiteFetch, facilityId: string, year: int, months: seq<nat>, i: nat)
    requires i < |months|
    ensures MonthAnswers(fetch, facilityId, year, months[..i + 1]) ==
      MonthAnswers(fetch, facilityId, year, months[..i]) + [GetCampsiteAvailabilities(fetch, facilityId, months[i], year)]
  {
  }

  lemma CampsiteBatchesStep(start: Ymd, end: Ymd, fetch: CampsiteFetch, facilityId: string, months: seq<nat>, i: nat)
    requires i < |months| && CampsiteBatches(start, end, fetch, facilityId, months[..i]).Some?
    requires SitesParse(start, end, GetCampsiteAvailabilities(fetch, facilityId, months[i], start.year))
    ensures CampsiteBatches(start, end, fetch, facilityId, months[..i + 1]) ==
      Some(CampsiteBatches(start, end, fetch, facilityId, months[..i]).value
           + SiteBatches(start, end, GetCampsiteAvailabilities(fetch, facilityId, months[i], start.year)))
  {
    var prev := MonthAnswers(fetch, facilityId, start.year, months[..i]);
    var sites := GetCampsiteAvailabilities(fetch, facilityId, months[i], start.year);
    MonthAnswersStep(fetch, facilityId, start.year, months, i);
    assert (prev + [sites])[..|prev|] == prev;
  }

  lemma CampsiteBatchesStepFails(start: Ymd, end: Ymd, fetch: CampsiteFetch, facilityId: string, months: seq<nat>, i: nat)
    requires i < |months|
    requires !SitesParse(start, end, GetCampsiteAvailabilities(fetch, facilityId, months[i], start.year))
    ensures CampsiteBatches(start, end, fetch, facilityId, months).None?
  {
    CampsiteBatchesFailure(start, end, fetch, facilityId, months);
  }

  /** The objects hold, in order, the ids and records `batches` lists. */
  predicate Holds(objs: seq<CampsiteAvailabilities.CampsiteAvailability>, batches: seq<Batch>)
    reads objs
  {
    |objs| == |batches| &&
    forall k :: 0 <= k < |objs| ==> objs[k].campsiteId == batches[k].0 && objs[k].records == batches[k].1
  }

  predicate Distinct(objs: seq<CampsiteAvailabilities.CampsiteAvailability>) {
    forall i, j :: 0 <= i < j < |objs| ==> objs[i] != objs[j]
  }

  /** The innermost loop of `make_campsite_availabilities`: one campsite's in-window days. */
  method AddStatuses(csAvail: CampsiteAvailabilities.CampsiteAvailability, start: Ymd, end: Ymd, entries: seq<(string, string)>)
    returns (failed: Option<Error>)
    modifies csAvail
    ensures failed.None? <==> StatusRecords(start, end, entries).Success?
    ensures failed.Some? ==> failed.value.ValueError?
    ensures failed.None? ==> csAvail.records == old(csAvail.records) + StatusRecords(start, end, entries).value
  {
    for k := 0 to |entries|
      invariant StatusRecords(start, end, entries[..k]).Success?
      invariant csAvail.records == old(csAvail.records) + StatusRecords(start, end, entries[..k]).value
    {
      var (dateText, status) := entries[k];
      var parsed := ParseIsoTimestamp(dateText);
      if parsed.None? {
        StatusRecordsStepFails(start, end, entries, k);
        return Some(StrptimeError(dateText, "%Y-%m-%dT%H:%M:%SZ"));
      }
      var date := parsed.value;
      StatusRecordsStep(start, end, entries, k, date);
      if DateLe(start, date) && DateLe(date, end) {
        csAvail.AddAvailability(Ordinal(date), status);
      }
    }
    assert entries[..|entries|] == entries;
    return None;
  }

  lemma HoldsConcat(a: seq<CampsiteAvailabilities.CampsiteAvailability>, b: seq<CampsiteAvailabilities.CampsiteAvailability>,
                    x: seq<Batch>, y: seq<Batch>)
    requires Holds(a, x) && Holds(b, y)
    ensures Holds(a + b, x + y)
  {
  }

  lemma DistinctConcat(a: seq<CampsiteAvailabilities.CampsiteAvailability>, b: seq<CampsiteAvailabilities.CampsiteAvailability>)
    requires Distinct(a) && Distinct(b)
    requires forall x, y :: x in a && y in b ==> x != y
    ensures Distinct(a + b)
  {
    forall i, j | 0 <= i < j < |a + b| ensures (a + b)[i] != (a + b)[j] {
      if j < |a| {
        assert (a + b)[i] == a[i] && (a + b)[j] == a[j];
      } else if i >= |a| {
        assert (a + b)[i] == b[i - |a|] && (a + b)[j] == b[j - |a|];
      } else {
        assert (a + b)[i] in a && (a + b)[j] in b;
      }
    }
  }

  lemma HoldsSnoc(objs: seq<CampsiteAvailabilities.CampsiteAvailability>, batches: seq<Batch>,
                  o: CampsiteAvailabilities.CampsiteAvailability, b: Batch)
    requires Holds(objs, batches) && o.campsiteId == b.0 && o.records == b.1
    ensures Holds(objs + [o], batches + [b])
  {
  }

  lemma DistinctSnoc(objs: seq<CampsiteAvailabilities.CampsiteAvailability>, o: CampsiteAvailabilities.CampsiteAvailability)
    requires Distinct(objs) && o !in objs
    ensures Distinct(objs + [o])
  {
  }

  /** The campsite loop of `make_campsite_availabilities` for one month: a new object per campsite. */
  method MonthSites(start: Ymd, end: Ymd, sites: seq<SitePayload>)
    returns (objs: seq<CampsiteAvailabilities.CampsiteAvailability>, failed: Option<Error>)
    ensures failed.None? <==> SitesParse(start, end, sites)
    ensures failed.Some? ==> failed.value.ValueError?
    ensures failed.None? ==> Holds(objs, SiteBatches(start, end, sites))
    ensures Distinct(objs) && forall k :: 0 <= k < |objs| ==> fresh(objs[k])
  {
    objs := [];
    for j := 0 to |sites|
      invariant SitesParse(start, end, sites[..j])
      invariant Holds(objs, SiteBatches(start, end, sites[..j]))
      invariant Distinct(objs) && forall k :: 0 <= k < |objs| ==> fresh(objs[k])
    {
      var csAvail := new CampsiteAvailabilities.CampsiteAvailability(sites[j].campsiteId);
      assert csAvail !in objs;
      failed := AddStatuses(csAvail, start, end, sites[j].availabilities);
      if failed.Some? {
        return;
      }
      var recs := StatusRecords(start, end, sites[j].availabilities).value;
      assert csAvail.records == recs;
      SiteBatchesStep(start, end, sites, j);
      HoldsSnoc(objs, SiteBatches(start, end, sites[..j]), csAvail, (sites[j].campsiteId, recs));
      DistinctSnoc(objs, csAvail);
      objs := objs + [csAvail];
    }
    assert sites[..|sites|] == sites;
    failed := None;
  }

  /**
   * `make_campsite_availabilities`: new, distinct timeline objects, one per campsite of every
   * queried month in fetch order, each holding that campsite's in-window days; a timestamp
   * `strptime` rejects raises `ValueError`.
   */
  method MakeCampsiteAvailabilities(start: Ymd, end: Ymd, facilityId: string, fetch: CampsiteFetch)
    returns (r: Result<seq<CampsiteAvailabilities.CampsiteAvailability>>)
    requires Valid(start) && Valid(end)
    ensures var spec := CampsiteBatches(start, end, fetch, facilityId, MonthsToFetch(start, end));
      && (r.Success? <==> spec.Some?)
      && (r.Success? ==> Holds(r.value, spec.value))
      && (r.Failure? ==> r.error.ValueError?)
    ensures r.Success? ==> Distinct(r.value) && forall k :: 0 <= k < |r.value| ==> fresh(r.value[k])
  {
    var facId := facilityId;
    var months := MonthsToFetch(start, end);
    var year := start.year;
    var availabilities: seq<CampsiteAvailabilities.CampsiteAvailability> := [];

    for i := 0 to |months|
      invariant CampsiteBatches(start, end, fetch, facId, months[..i]).Some?
      invariant Holds(availabilities, CampsiteBatches(start, end, fetch, facId, months[..i]).value)
      invariant Distinct(availabilities) && forall k :: 0 <= k < |availabilities| ==> fresh(availabilities[k])
    {
      var sites := GetCampsiteAvailabilities(fetch, facId, months[i], year);
      var objs, failed := MonthSites(start, end, sites);
      if failed.Some? {
        CampsiteBatchesStepFails(start, end, fetch, facId, months, i);
        return Failure(failed.value);
      }
      CampsiteBatchesStep(start, end, fetch, facId, months, i);
      HoldsConcat(availabilities, objs, CampsiteBatches(start, end, fetch, facId, months[..i]).value, SiteBatches(start, end, sites));
      forall x, y | x in availabilities && y in objs ensures x != y {
        var k :| 0 <= k < |objs| && objs[k] == y;
      }
      DistinctConcat(availabilities, objs);
      availabilities := availabilities + objs;
    }
    assert months[..|months|] == months;
    return Success(availabilities);
  }
}
