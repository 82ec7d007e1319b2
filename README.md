# recyoself availability engine — a Dafny model

This project models the core of recyoself, a tool that watches recreation.gov for bookable
dates. The modelled core is:

- **Per-unit availability timelines.**
  - A campsite's timeline holds records with a status label: `Available`, `Reserved`, `NYR` or `Management` (`CampsiteAvailabilities`).
  - A permit division's timeline holds records with slot counts (`DivisionAvailabilities`).
  - The group-campsite timeline holds records with site counts (`Campsites`).
  - The search for consecutive free days (`find_reservable_blocks`) runs over the campsite timeline.
- **The chained itinerary matcher.** Stop *i* must be free on day `base + i`, for every base date offered by stop 0. It has two copies, one in each command line (`ItineraryMatching`, `RecyoselfCli`, `RecgovCli`).
- **Interactive helpers.** The rule that turns a typed answer into a division, and the lottery choice (`DivisionSelection`, `RecyoselfCli`).
- **The recreation.gov adaptation layer** (`RecreationDotGov`):
  - which months are fetched;
  - the inclusive date window;
  - the early-access endpoint choice;
  - the quota-map fallback;
  - the objects built from the fetched payloads.
- **The RIDB loader** (`Ridb`): the campsite type parser, the stored-checksum check and its upsert, the facility row filter, and the record count.
- **The calendar style table** (`AvailabilityCalendars`).
- **Small model predicates and formatters** (`Lotteries`, `Divisions`, `CampsiteModels`, `Itineraries`).

How the Python is represented:

- **Dates.**
  - Timelines use integer day ordinals, as `date.toordinal()` does.
  - The adaptation layer keeps `(year, month, day)` triples. `Dates.Ordinal` maps them to proleptic-Gregorian ordinals.
  - Python's `date` comparison is proved to agree with comparing ordinals (`Dates.DateLeOrdinal`).
  - Valid dates run from `date.min` (0001-01-01) to `date.max` (9999-12-31). Date arithmetic that leaves that range is `OverflowError` (`Dates.ShiftDays`).
- **Sorting.** `sorted()` on the dataclasses compares only `date`. It becomes the stable insertion sort `Timeline.SortBy`, keyed on the date.
- **Classes.** Classes whose lists the source appends to are Dafny classes. Their `seq` fields are reassigned by `modifies` methods; those fields are the appended lists in insertion order.
- **Python built-ins** get explicit definitions in `Strings`:
  - `str.split(" ")`, `str.split()`, `str.join`;
  - ASCII `lower()`;
  - `str(int)` and `zfill`.
- **Network fetches** are function parameters: `DivisionFetch` and `CampsiteFetch`. Each maps the request (URL, month, year) to the parsed payload.
- **The clock.** `datetime.now()` is the parameter `now`.
- **Interactive prompts.** The answers typed at the prompts are a `seq<Option<string>>` that contains an answer that ends the loop.
- **The database.** The stored checksums are a `map` held by the `Ridb` object. The organisation and recreation-area lookups are sets of known ids.

The recyoself copies of `DivisionAvailability`, `CampsiteAvailability` and `Itinerary` are not part of this model. The `recgov` classes, whose methods have the same names, stand in for them. For `Itinerary`, the stand-in is `recgov/models/itinerary.py`. `RecyoselfCli.CreateItinerary` and the `Itineraries` members assume that recyoself's `Itinerary.add_division` appends the division to the itinerary's stops, in call order. That method is not part of this model.

## Model

| member | source | states |
|---|---|---|
| CampsiteAvailabilities.StatusLabels | recgov/campsite_availability.py:58-72 | Each of `Available`, `Reserved`, `NYR` and `Management` satisfies its own status predicate and no other. Any other label satisfies none of them. |
| CampsiteAvailabilities.EligibleLabels | recgov/campsite_availability.py:29-33 | A record is eligible iff it is available, or `include_nyr` is set and it is NYR. NYR is never eligible without `include_nyr`. `Reserved` and `Management` never are. |
| CampsiteAvailabilities.Range | recgov/campsite_availability.py:41 | `list(range(lo, hi))`: empty when `hi <= lo`, otherwise `hi - lo` elements with element `k` equal to `lo + k`. |
| CampsiteAvailabilities.RunOfDaysIff | recgov/campsite_availability.py:41 | A window equals `range(ords[0], ords[-1] + 1)` iff every element `k` is `ords[0] + k`. |
| CampsiteAvailabilities.WindowIsRunIff | recgov/campsite_availability.py:34-41 | The `days` ordinals from position `i` pass the range test iff those records are dated `E[i], E[i]+1, …`. Gaps and repeated dates fail. |
| CampsiteAvailabilities.RangeCheckIsRun | recgov/campsite_availability.py:40-41 | The loop's slice-and-compare test is exactly the consecutive-days condition at `leftp`. |
| CampsiteAvailabilities.BlocksLength | recgov/campsite_availability.py:37-39 | Only windows with `i + days < len(E)` are tested, so at most `len(E) - days` starts are reported, and none when `len(E) <= days`. |
| CampsiteAvailabilities.BlocksSound | recgov/campsite_availability.py:39-43 | Every reported pair is `(E[i].date, E[i].available)` for a tested position `i` whose window is consecutive. |
| CampsiteAvailabilities.BlocksComplete | recgov/campsite_availability.py:39-43 | Every tested position whose window is consecutive is reported. |
| CampsiteAvailabilities.BlocksAscendingFrom | recgov/campsite_availability.py:43 | Over date-sorted records, the reported start dates are non-decreasing. |
| CampsiteAvailabilities.ReservableBlocksSpec | recgov/campsite_availability.py:26-46 | The full search. The result length is bounded by `max(0, len(E) - days)`. Every result is a consecutive window's start tag, every such window is reported, and the results ascend by date. |
| CampsiteAvailabilities.ReservableBlocksExact | recgov/campsite_availability.py:26-46 | The result is exactly `[(E[i].date, E[i].available) for i in idx]`. Here `idx` is strictly increasing and holds exactly the tested positions whose window is consecutive. So no start is reported twice. With `days >= 2` the reported dates are strictly ascending. |
| CampsiteAvailabilities.BlockStartsFacts | recgov/campsite_availability.py:39-43 | The positions where the loop appends are strictly increasing, and are exactly the tested positions from `left` on whose window is consecutive. |
| CampsiteAvailabilities.BlocksAsStarts | recgov/campsite_availability.py:39-43 | The `k`-th reported pair is the start tag of the `k`-th such position, and there are as many pairs as positions. |
| CampsiteAvailabilities.BlocksExactly | recgov/campsite_availability.py:37-43 | Over any record list the report is one start tag per block position, in position order, and nothing else. |
| CampsiteAvailabilities.BlocksStrictlyAscending | recgov/campsite_availability.py:37-43 | Over date-sorted records with `days >= 2`, the reported start dates are strictly ascending. |
| CampsiteAvailabilities.ExactRunReportsNothing | recgov/campsite_availability.py:37-39 | Exactly `days` eligible dates yield no block, because the last window is never tested. |
| CampsiteAvailabilities.BlockTags | recgov/campsite_availability.py:29-43 | Each result's flag is the start date's `available`. A `false` flag occurs only for an NYR start with `include_nyr` set. |
| CampsiteAvailabilities.CampsiteAvailability.constructor | recgov/campsite_availability.py:9-15 | A new object has the given id and no records. |
| CampsiteAvailabilities.CampsiteAvailability.Availabilities | recgov/campsite_availability.py:17-19 | `availabilities` is sorted by date, is a permutation of the appended records, and keeps insertion order among records with the same date (the status is not compared). |
| CampsiteAvailabilities.CampsiteAvailability.AddAvailability | recgov/campsite_availability.py:21-24 | Appends exactly one record with the given date and status. Earlier records are unchanged. |
| CampsiteAvailabilities.CampsiteAvailability.FindReservableBlocks | recgov/campsite_availability.py:26-46 | The `leftp`/`rightp` loop returns exactly the block specification of the current records. The object is not modified, so repeated calls agree. |
| DivisionAvailabilities.AvailableDatesMembers | recgov/division_availability.py:31-36 | `available_dates(slots)` is ascending. A date is listed iff some record has that date, `available_slots > 0` and `total_slots >= slots`. It is listed once per such record: the listed dates, counted with repetition, are the dates of the qualifying records. |
| DivisionAvailabilities.RepeatedDateListedTwice | recgov/division_availability.py:31-36 | Two qualifying records dated 5 list day 5 twice. |
| DivisionAvailabilities.UnavailableNeverListed | recgov/division_availability.py:31-36 | A date whose records all have `available_slots <= 0` is never listed, for any `slots`. |
| DivisionAvailabilities.MoreSlotsFewerDates | recgov/division_availability.py:35 | `available_dates(s + 1)` is a subsequence of `available_dates(s)`. |
| DivisionAvailabilities.AvailableDatesOrderFree | recgov/division_availability.py:15-36 | Two record lists with the same multiset of records give the same `available_dates`, so insertion order does not matter. |
| DivisionAvailabilities.PostInitDate | recgov/division_availability.py:47-49 | A date value or `""` is kept. A non-empty string is parsed as `%Y-%m-%d`, and the parsed date formats back to that string. An unparsable string is a `ValueError`. |
| DivisionAvailabilities.PostInitOfFormatted | recgov/division_availability.py:47-49 | The text of a valid date becomes that date. |
| DivisionAvailabilities.PostInitIdempotent | recgov/division_availability.py:47-49 | Normalising an already normalised date changes nothing. |
| DivisionAvailabilities.DivisionAvailability.constructor | recgov/division_availability.py:9-13 | A new object has the given division and no records. |
| DivisionAvailabilities.DivisionAvailability.Availabilities | recgov/division_availability.py:15-17 | Sorted by date, a permutation of the appended records, and stable among records with equal dates. |
| DivisionAvailabilities.DivisionAvailability.SetAvailability | recgov/division_availability.py:19-29 | Appends exactly one record carrying the date, `total_slots`, `available_slots` and `has_walkup`. Nothing else changes. |
| DivisionAvailabilities.DivisionAvailability.AvailableDates | recgov/division_availability.py:31-36 | Ascending. Holds exactly the dates of records with free slots and enough total slots, each once per such record. |
| Campsites.IndexOfToken | recgov/campsite.py:20 | `list.index`: absent iff the token is missing, otherwise the first position holding it. |
| Campsites.IndexOfTokenAfter | recgov/campsite.py:20 | In `before + ["-"] + after` with no `"-"` in `before`, the index is `len(before)`. |
| Campsites.Campsite.constructor | recgov/campsite.py:5-15 | The fields are as given and there are no records. |
| Campsites.Campsite.Name | recgov/campsite.py:17-21 | Fails with `ValueError` iff `full_name.split()` has no standalone `"-"` word. Otherwise it is the words after the first `"-"`, joined by single spaces. |
| Campsites.Campsite.Abbreviation | recgov/campsite.py:23-27 | Fails with `ValueError` iff there is no `"-"` word. Otherwise it is the word just before the first `"-"`, or the last word when `"-"` comes first (index -1). |
| Campsites.NameAndAbbreviationOf | recgov/campsite.py:17-27 | For any full name whose words are `before`, `"-"`, `after` (any whitespace between them): `name` is `after` joined by spaces, and `abbreviation` is the last word of `before`, or the last word of the name when `before` is empty. |
| Campsites.Campsite.Availabilities | recgov/campsite.py:38-40 | Sorted by date only, a permutation of the appended records, and stable per date. |
| Campsites.Campsite.SaveAvailability | recgov/campsite.py:29-36 | Appends one record, copying `total` to `total_sites`, `remaining` to `available_sites` and `show_walkup` to `has_walkup`. |
| Campsites.Campsite.AvailableDates | recgov/campsite.py:42-47 | Ascending. Holds exactly the dates with `available_sites > 0` and `total_sites >= sites`, each once per such record. |
| Campsites.MoreSitesFewerDates | recgov/campsite.py:42-47 | Asking for one more site gives a subsequence of the dates. |
| ItineraryMatching.DateCombos | recyoself/cli.py:352-355 | One pair per stop, pair `i` being `(stop i, base + i)`. |
| ItineraryMatching.CombosFor | recyoself/cli.py:351-357 | One combo list per kept base date, in the order of the base dates. |
| ItineraryMatching.MatchedBases | recyoself/cli.py:351-357 | The kept bases are a subsequence of stop 0's dates. Each date is kept as often as it occurs there iff every stop is free on `base + i`, and never otherwise. |
| ItineraryMatching.MatchShape | recyoself/cli.py:349-357 | Every match has one pair per stop, with pair `i` equal to `(stop i, base + i)` and its date free for stop `i`. |
| ItineraryMatching.FittingDateMatches | recyoself/cli.py:356-357 | Every base date of stop 0 that fits all stops yields a match. |
| ItineraryMatching.SingleStopMatchesEveryDate | recgov/cli.py:236-242 | With one stop, every available date, duplicates included, yields a one-pair match. |
| ItineraryMatching.Reverse | recyoself/cli.py:469 | `[::-1]`: same length, element `i` is element `len - 1 - i`. |
| ItineraryMatching.ReversedMatchShape | recyoself/cli.py:466-470 | A reversed match visits the stops last to first, on consecutive days starting from a date of the last stop. |
| ItineraryMatching.AvailableDateLists | recyoself/cli.py:356 | One list per stop, entry `i` being stop `i`'s `available_dates()`. |
| ItineraryMatching.CombosPresent | recyoself/cli.py:352-356 | The `all(pair[1] in pair[0].available_dates() …)` test on the date combos is the "every stop is free on base + i" test on the stops' date lists. |
| ItineraryMatching.AvailableDateListsReverse | recyoself/cli.py:468-470 | The date lists of the reversed stops are the reversed date lists. |
| RecyoselfCli.FindDivisionAvailabilityDateMatches | recyoself/cli.py:345-358 | The loop over stop 0's dates returns exactly the chained matches of the stops' date lists. The stop list must be non-empty. |
| RecyoselfCli.FindReversedMatches | recyoself/cli.py:465-470 | Empty unless `reversable`. Otherwise it is the matcher applied to the reversed stops. |
| RecyoselfCli.ItineraryEndDate | recyoself/cli.py:423-424 | The end date defaults to the start date. |
| RecyoselfCli.CampsiteSearchEnd | recyoself/cli.py:540-542 | `end_date + timedelta(days=num_days)` for any integer `num_days`, with `end_date` defaulting to the start date. It is `OverflowError` exactly when the result would leave `date.min .. date.max`. |
| RecyoselfCli.FirstLotteryWithId | recyoself/cli.py:441-447 | The first lottery whose id equals the given id case-insensitively, or none when no id matches. |
| RecyoselfCli.SelectLottery | recyoself/cli.py:434-456 | No lotteries gives `None`. One lottery is used as is. With several and an id, it is the first case-insensitive match, or a `ValueError`. With no id it is the prompted choice, or an abort when the prompt is dismissed. |
| RecyoselfCli.CreateItinerary | recyoself/cli.py:252-342 | The `while True` prompt loop ends with the outcome the specification function gives for the answers. |
| RecyoselfCli.StopsChosenAreReservable | recyoself/cli.py:310-332 | Every added stop is a reservable division of the permit. |
| RecyoselfCli.CreateItineraryOutcomes | recyoself/cli.py:287-342 | A save happens only after `save`, with the given name, at least one stop and only reservable stops. `cancel` or no answer aborts. Answers after the loop ends are never read. |
| RecgovCli.FindAvailabilityDateMatches | recgov/cli.py:230-243 | The twin matcher returns exactly the chained matches of the stops' date lists. |
| RecgovCli.FindReversedMatches | recgov/cli.py:305-311 | Empty unless `reversable`. Otherwise it is the matcher on the reversed stops. |
| RecgovCli.CreateItinerary | recgov/cli.py:154-227 | The prompt loop ends with the outcome of the specification function, which adds each accepted stop as intended. |
| RecgovCli.StopsChosenAreReservable | recgov/cli.py:189-212 | Every added stop is a reservable division. |
| RecgovCli.CreateItineraryOutcomes | recgov/cli.py:176-227 | After `cancel` or no answer the command reports that it does not save. A save requires `save`, at least one stop and only reservable divisions. Answers after the first loop-ending answer are never read. |
| RecgovCli.CreateItineraryAsWritten | recgov/cli.py:207-214 | As the code stands, the first accepted stop raises `AttributeError` (`add_division` is not defined), so no session ever ends with a save. |
| RecgovCli.AsWrittenAgreesOrRaises | recgov/cli.py:176-227 | When the code as written does not raise, its outcome is the intended one. Every session the intended behaviour saves raises instead. |
| RecgovCli.SaveOneStopRaises | recgov/cli.py:207-214 | Typing a reservable division's name and then `save` should save a one-stop itinerary. As written it raises `AttributeError`. |
| DivisionSelection.ExactIsMatching | recyoself/cli.py:310-315 | An exact case-insensitive name match is also a substring match. |
| DivisionSelection.DivisionToAddRules | recyoself/cli.py:310-329 | Nothing is added iff no name contains the answer, or several do and none is exact. When some name equals the answer, the first such division in reservable order is added (`exact_match[0]`). A single match is taken. What is added is reservable and contains the answer. |
| DivisionSelection.FirstExactMatch | recyoself/cli.py:313-325 | `exact_match[0]`, taken among the matching divisions, is the first reservable division whose name equals the answer. |
| DivisionSelection.FirstTerminator | recgov/cli.py:186-187 | The first of `save`, `cancel` or no answer; no earlier answer ends the loop. |
| Lotteries.EarlyAccessBounds | recyoself/models/lottery.py:43-45 | `in_early_access` holds iff `access_start_at < now < access_end_at`. It is false at either bound and whenever start is not before end. |
| Lotteries.EarlyAccessDependsOnAccessWindow | recyoself/models/lottery.py:43-45 | Two lotteries with the same access window agree for every `now`. |
| Divisions.ReservableIff | recyoself/models/division.py:30-32 | A hidden or an inactive division is never reservable. A visible, active one is. |
| Divisions.Repr | recyoself/models/division.py:27-28 | The text is `Division(`, the type, `: `, the name and `)`, in that order and nothing else. |
| Divisions.ReprFirstColon | recyoself/models/division.py:27-28 | When the type has no colon, the first colon after the prefix ends the type. |
| Divisions.ReprInjective | recyoself/models/division.py:27-28 | When types contain no colon, equal texts mean equal types and names. |
| CampsiteModels.CombinedType | recyoself/models/campsite.py:57-61 | The text starts with the group prefix, ends with the electric suffix, and has exactly `type.pretty_name` between them. |
| CampsiteModels.CombinedTypeFlags | recyoself/models/campsite.py:59-61 | Requires that the pretty type name does not itself start with `Group `. Then the combined type starts with `Group ` iff `group_site`, and ends with `, Electric` iff `electric` (otherwise with `, Non-Electric`). |
| CampsiteModels.CombinedTypeDependsOnTypeAndFlags | recyoself/models/campsite.py:57-61 | Only the type and the two flags matter; `name`, `loop` and `use` do not. |
| Itineraries.NumberedLines | recgov/models/itinerary.py:32 | Line `k` (from 1) is `"k. "` followed by the k-th division's name, with one line per division in list order. |
| Itineraries.NoStopsNoText | recgov/models/itinerary.py:31-33 | No divisions gives `""`. |
| Itineraries.NumberedLineNoNewline | recgov/models/itinerary.py:32 | A line has no newline when the name has none. |
| Itineraries.OrderedDivisionsLines | recgov/models/itinerary.py:29-33 | Splitting the text on newlines gives back exactly the numbered lines, one per division in order. The text ends with the last line, so there is no trailing newline. |
| RecreationDotGov.ContextOfLottery | recyoself/recreationdotgov.py:95-96 | No lottery gives no lottery id and `in_eap` false. `in_eap` holds iff there is a lottery whose early-access window contains `now`. |
| RecreationDotGov.MonthsToFetchRange | recyoself/recreationdotgov.py:97-98 | The months are `start.month … end.month` inclusive, strictly ascending, all in 1..12. They are empty iff `end.month < start.month`. |
| RecreationDotGov.InWindowOrdinal | recyoself/recreationdotgov.py:107 | `start <= d <= end` on dates is the same test on ordinals. |
| RecreationDotGov.DivisionEndpointSegments | recyoself/recreationdotgov.py:154-159 | The URL's path segments are as built. The fifth is `eapavailability` iff `in_eap`, else `availability`. The lottery id is a seventh segment iff there is one and `in_eap` holds. |
| RecreationDotGov.SelectQuotaMapFallback | recyoself/recreationdotgov.py:161-168 | `QuotaUsageBySiteDaily` when present and non-empty, otherwise `ConstantQuotaUsageDaily` when present. The result is empty iff both are missing or empty. |
| RecreationDotGov.DayRecordsFailure | recyoself/recreationdotgov.py:105-106 | A month's entries fail iff some date key does not parse as `%Y-%m-%d`. |
| RecreationDotGov.DayRecordsMembers | recyoself/recreationdotgov.py:105-113 | A record is produced iff some entry's date parses into the window. It carries that entry's `total`, `remaining` and `show_walkup`. |
| RecreationDotGov.DivisionRecordsMembers | recyoself/recreationdotgov.py:101-113 | The division's records are exactly those produced by the quota map of some fetched month. |
| RecreationDotGov.DivisionRecordsFailurePersists | recyoself/recreationdotgov.py:101-106 | A parse failure in one month aborts the whole construction. |
| RecreationDotGov.DivisionRecordsInWindow | recyoself/recreationdotgov.py:107 | Every added date lies between the start and end dates inclusive. |
| RecreationDotGov.BackwardsMonthsNoRecords | recyoself/recreationdotgov.py:97-101 | When `end.month < start.month` nothing is fetched and the result has no records. |
| RecreationDotGov.AddQuotaMap | recyoself/recreationdotgov.py:105-113 | The inner loop appends exactly the window's records of one quota map, in map order, or reports the `strptime` failure. |
| RecreationDotGov.MakeDivisionAvailabilities | recyoself/recreationdotgov.py:85-114 | Succeeds iff every fetched date parses. It then returns a new object for the division whose records are the specification's, month by month and in map order. |
| RecreationDotGov.ZFill2IsPadded | recyoself/recreationdotgov.py:174 | `str(month).zfill(2)` is the two-digit padding for months below 100. |
| RecreationDotGov.CampsiteMonthParamIso | recyoself/recreationdotgov.py:174 | For four-digit years and months 1..12, the `start_date` parameter is `YYYY-MM-01` followed by `T00:00:00.000Z`. |
| RecreationDotGov.CampsiteMonthParamFormat | recyoself/recreationdotgov.py:174 | The parameter's first ten characters parse back to the first of that month. |
| RecreationDotGov.StatusRecordsFailure | recyoself/recreationdotgov.py:129-130 | A campsite's entries fail iff some key does not parse as `%Y-%m-%dT%H:%M:%SZ`. |
| RecreationDotGov.StatusRecordsMembers | recyoself/recreationdotgov.py:129-132 | A status record is produced iff some entry's timestamp parses to a date in the window. It carries that entry's status. |
| RecreationDotGov.CampsiteBatchesFailure | recyoself/recreationdotgov.py:124-130 | The construction fails iff some fetched month has a campsite entry that does not parse. |
| RecreationDotGov.CampsiteBatchesIds | recyoself/recreationdotgov.py:124-133 | One batch per (month, campsite) pair in fetch order, including campsites with no date in the window. |
| RecreationDotGov.CampsiteBatchesInWindow | recyoself/recreationdotgov.py:131 | Every added date lies in the window. |
| RecreationDotGov.AddStatuses | recyoself/recreationdotgov.py:129-132 | The inner loop appends exactly the window's status records, or fails with a `ValueError`. |
| RecreationDotGov.MonthSites | recyoself/recreationdotgov.py:125-133 | One new object per fetched campsite, each holding its batch, all distinct. |
| RecreationDotGov.MakeCampsiteAvailabilities | recyoself/recreationdotgov.py:116-134 | Succeeds iff every timestamp parses, otherwise fails with `ValueError`. Object `k` is a new, distinct object carrying batch `k`'s campsite id and records. |
| Ridb.RemoveFirstAt | recyoself/ridb.py:150 | `list.remove` deletes exactly the first occurrence and keeps the rest in order. |
| Ridb.RemoveFirstCount | recyoself/ridb.py:150 | `list.remove` removes one copy of the element. |
| Ridb.RemoveFirstSubsequence | recyoself/ridb.py:150 | The list after `remove` is a subsequence of the list before. |
| Ridb.RemoveFirstSpec | recyoself/ridb.py:150 | The three facts above together. |
| Ridb.ParseCampsiteType | recyoself/ridb.py:135-152 | Fails with `IndexError` iff no token is left after the electric pop. `electric` iff the last token is `ELECTRIC`. `group_site` iff the first remaining token is `GROUP`. The type is the kept tokens joined by spaces. |
| Ridb.OnlyElectricTokenFails | recyoself/ridb.py:140-144 | Only `ELECTRIC` or `NONELECTRIC` alone leaves no token. |
| Ridb.AreaRule | recyoself/ridb.py:144-150 | Without `GROUP` every token, `AREA` included, is kept. With `GROUP`, `GROUP` goes, and so does the first `AREA` unless the rest is `STANDARD AREA`. |
| Ridb.KeptTokensOrder | recyoself/ridb.py:138-152 | The kept tokens are a subsequence of the split tokens. At most three are dropped, each `ELECTRIC`, `NONELECTRIC`, `GROUP` or `AREA`. |
| Ridb.PlainTypeUnchanged | recyoself/ridb.py:138-152 | A type with no trailing electric token and no leading `GROUP` is returned unchanged. |
| Ridb.FacilitiesOfMembers | recyoself/ridb.py:80-110 | Every facility comes from a row with a non-empty name and a known organisation. Every such row yields one. |
| Ridb.NumRecordsOfExport | recyoself/ridb.py:191-194 | A header plus `n` rows counts `n`. |
| Ridb.Ridb.constructor | recyoself/ridb.py:37-43 | With nothing stored, every export counts as updated. |
| Ridb.Ridb.UpdateEntityChecksum | recyoself/ridb.py:201-208 | Upserts the checksum. Afterwards the export counts as updated iff its checksum differs from the one stored. Other entities are unaffected. |
| Ridb.Ridb.MakeFacilities | recyoself/ridb.py:80-110 | Stores the `Facilities` checksum, then yields one facility per named row with a known organisation, in file order. The recreation area is attached only for a non-empty, known id. |
| AvailabilityCalendars.FreshStyles | recyoself/utils/calendar.py:21-23 | Months are exactly 1..12. Every day 1..31 of each is present with style `"none"`, and no other day is present. |
| AvailabilityCalendars.MonthsUpToSpec | recyoself/utils/calendar.py:26-33 | After `n` months the list is ascending and holds exactly the months among 1..n with a style other than `"none"`. |
| AvailabilityCalendars.StyledMonthsSpec | recyoself/utils/calendar.py:25-33 | `styled_months` is strictly ascending, hence has no duplicates, and holds exactly the months with some style other than `"none"`. |
| AvailabilityCalendars.FreshHasNoStyledMonths | recyoself/utils/calendar.py:21-33 | A fresh calendar has no styled months. |
| AvailabilityCalendars.SetStyle | recyoself/utils/calendar.py:51-52 | Sets `(month, day)` to `"green4 bold"`, adding the day if absent. Every other entry is unchanged. |
| AvailabilityCalendars.SetStyleMarksMonth | recyoself/utils/calendar.py:25-52 | After `set_available(m, d)`, `m` is among the styled months. |
| AvailabilityCalendars.SetStyleKeepsStyledMonths | recyoself/utils/calendar.py:25-52 | Marking a date never unmarks a month. |
| AvailabilityCalendars.SetStyleIdempotent | recyoself/utils/calendar.py:51-52 | Marking the same date twice equals marking it once. |
| AvailabilityCalendars.AvailabilityCalendar.constructor | recyoself/utils/calendar.py:12-23 | Stores year and first weekday (default 6) and builds the fresh table. |
| AvailabilityCalendars.AvailabilityCalendar.SetAvailable | recyoself/utils/calendar.py:51-52 | Fails with `KeyError` iff the month is outside 1..12, and then leaves the table unchanged. Otherwise it updates the table as `SetStyle` does, keeps months 1..12, and the month becomes styled. |
| AvailabilityCalendars.AvailabilityCalendar.StyledMonths | recyoself/utils/calendar.py:25-33 | The nested loop returns the specification list: ascending, with exactly the styled months. |
| AvailabilityCalendars.MonthStyled | recyoself/utils/calendar.py:29-32 | The inner loop with `break` finds a style iff some day of the month has a style other than `"none"`. |
| Dates.NextDayOrdinal | recyoself/cli.py:353 | The next calendar day of any date but `date.max` is valid and one ordinal later (`timedelta(days=1)`). |
| Dates.PrevDayOrdinal | recyoself/cli.py:542 | The previous calendar day of any date but `date.min` is valid and one ordinal earlier. |
| Dates.OrdinalBounds | recyoself/cli.py:542 | Every valid date's ordinal lies in `1 .. date.max.toordinal()`. |
| Dates.OrdinalInjective | recyoself/cli.py:542 | Equal ordinals mean equal dates. |
| Dates.AddDays | recyoself/cli.py:542 | Adding `n >= 0` days within range gives a valid date `n` ordinals later. |
| Dates.SubDays | recyoself/cli.py:542 | Subtracting `n >= 0` days within range gives a valid date `n` ordinals earlier. |
| Dates.ShiftDays | recyoself/cli.py:542 | `d + timedelta(days=n)` for any integer `n`: `OverflowError` iff `d.toordinal() + n` leaves `1 .. date.max.toordinal()`, otherwise a valid date exactly `n` ordinals away. |
| Dates.ShiftDaysBack | recyoself/cli.py:542 | Shifting by `n` and then by `-n` gives the date back. |
| Dates.ParseIsoDate | recyoself/recreationdotgov.py:106 | `strptime(…, "%Y-%m-%d")` succeeds only on a valid calendar date. |
| Dates.ParseFormatIsoDate | recgov/division_availability.py:49 | The `%Y-%m-%d` text of every valid date parses back to that date. |
| Dates.FormatParsedIsoDate | recgov/division_availability.py:49 | A parsed text is the formatting of its date. |
| Dates.ParseIsoTimestamp | recyoself/recreationdotgov.py:130 | A timestamp parsed as `%Y-%m-%dT%H:%M:%SZ` always has a valid calendar date. Hours run to 23, minutes and seconds to 59. |
| Dates.LeapSecondRejected | recyoself/recreationdotgov.py:130 | Second `60` is rejected, as `datetime` rejects it. Second `59` of the same minute parses to the date. |
| Dates.DateLeOrdinal | recyoself/recreationdotgov.py:107 | Python's field-by-field date comparison agrees with comparing ordinals. |
| Timeline.SortBy | recgov/division_availability.py:15-17 | `sorted()` keeps the length. |
| Timeline.SortBySorted | recgov/division_availability.py:15-17 | The result is sorted by date. |
| Timeline.SortByPermutation | recgov/division_availability.py:15-17 | The result is a permutation of the appended list. |
| Timeline.SortByStable | recgov/division_availability.py:39-45 | Records with equal dates keep their insertion order, since only `date` is compared. |
| Timeline.SelectMembers | recgov/division_availability.py:32-36 | A comprehension's filter keeps exactly the elements satisfying it. |
| Timeline.SelectSubsequence | recgov/division_availability.py:32-36 | A comprehension's filter keeps the order of the elements. |
| Timeline.SelectFirst | recyoself/cli.py:325 | `[…][0]` of a filter is the first element passing it. |
| Timeline.SelectSelect | recyoself/cli.py:310-315 | Filtering a filtered list by a stronger test equals filtering the original list by that test. |
| Timeline.DatesWhereAscending | recgov/division_availability.py:31-36 | Dates read from the sorted view are ascending. |
| Timeline.DatesWhereMembers | recgov/division_availability.py:31-36 | A date is listed iff some record satisfying the filter has it. |
| Timeline.DatesWhereOrderFree | recgov/division_availability.py:15-17 | The listed dates depend only on the multiset of records. |
| Timeline.DatesWhereMultiplicity | recgov/division_availability.py:31-36 | The listed dates, counted with repetition, are the dates of the records passing the filter. |
| Timeline.DatesWhereStronger | recgov/division_availability.py:35 | A stronger filter lists a subsequence of the dates. |
| Strings.Lower | recyoself/cli.py:311 | `lower()` keeps the length and lowers each character. |
| Strings.Split | recyoself/ridb.py:138 | `split(" ")` gives at least one part, and no part holds the separator. |
| Strings.SplitJoin | recyoself/ridb.py:138-152 | Joining separator-free parts and splitting gives the parts back. |
| Strings.JoinSplit | recyoself/ridb.py:138-152 | Splitting a text and joining the parts gives the text back. |
| Strings.Words | recgov/campsite.py:19 | `split()` gives non-empty, space-free words. |
| Strings.WordsOfJoin | recgov/campsite.py:19-21 | Splitting words joined by single spaces gives the words back. |
| Strings.NatToStringValue | recgov/models/itinerary.py:32 | The decimal text of `n` reads back as `n`. |
| Strings.ZFill2 | recyoself/recreationdotgov.py:174 | `zfill(2)` gives at least two digits. |

## Left out

- HTTP, JSON decoding and the recreation.gov and RIDB downloads are left out. The fetched payloads are function parameters, with key order as given.
- Python dictionaries in the payloads are modelled as ordered lists of `(key, value)` pairs. Key uniqueness is not enforced, because the loops never depend on it.
- A payload entry missing `total`, `remaining`, `show_walkup` or `availabilities` raises `KeyError`. The model's payload records always carry those fields.
- The database is left out: sessions, `select` queries, ORM relationships and migrations. Organisation and recreation-area lookups are sets of known ids, and stored checksums are a map.
- RecreationDotGov.MakeDivisionAvailabilities: takes the facility id as a separate parameter. The source reads it through the ORM relationship `division.permit.facility_id` (recyoself/recreationdotgov.py:93). The model does not tie that parameter to the division.
- File I/O is left out: the zip download, CSV reading and SHA-256 hashing. A checksum is an opaque string, and a CSV export is its list of rows.
- Ridb.Ridb.MakeFacilities: the console message printed for a facility whose organisation is unknown is left out; the row is skipped as in the source.
- The interactive UI is left out: click, questionary and rich, the `list` pager, `echo`, `DAEMON_MODE`, printing of matches, and `AvailabilityCalendar.print_month` (the `calendar` module and `rich` tables).
- `datetime.now()` is the parameter `now`. Datetimes are compared as totally ordered instants (integers); naive versus aware timestamps are not distinguished.
- Dates.ParseIsoDate, Dates.ParseIsoTimestamp: read only the zero-padded spelling, with years 1..9999. Python's `strptime` also accepts single-digit month, day, hour, minute and second fields. The model returns `None` for those, where Python would parse them.
- Strings.Lower: lowers ASCII letters only, because Unicode case mapping is not modelled.
- `BaseEnum.pretty_name` (`str.title()`) is an uninterpreted function parameter.
- CampsiteAvailabilities.CampsiteAvailability.FindReservableBlocks: requires `days >= 1`. With `days = 0` the Python raises `IndexError` on an empty slice. With negative `days`, Python's negative slicing is not modelled.
- RecreationDotGov.MonthsToFetchRange: the months are `range(start.month, end.month + 1)` in `start.year`. A window crossing a year end fetches this range as written, not the months of the following year.
- RecreationDotGov.DivisionEndpointSegments: the lottery id is a string, and the URL is described by its `/`-separated segments.
- Calendar month names and week headers only affect printing and are left out.
- AvailabilityCalendars.AvailabilityCalendar.constructor: accepts any first weekday. `calendar.setfirstweekday` raises `IllegalWeekdayError` for a value outside 0..6, and the model does not capture that error.
- DivisionAvailabilities.DivisionAvailability.SetAvailability: takes the date as an already parsed day number. The parse of a text date in `AvailabilityInfo.__post_init__`, with its `ValueError`, is `DivisionAvailabilities.PostInitDate`, which this method does not call. The `TypeError` that `sorted` raises when an empty-text date meets a real one is not modelled. The call site in `recyoself/recreationdotgov.py` passes a parsed date.
- Campsites.Campsite.SaveAvailability: takes the date as an already parsed day number, for the same reason as `SetAvailability`. The string form of the date is not modelled.
- RecgovCli.CreateItinerary: models the intended behaviour, in which each accepted stop is added to the itinerary. The code as written calls `Itinerary.add_division`, which the recgov `Itinerary` model does not define (see "## Findings"). The database session is not modelled either. `session.add` and `session.flush` run after every accepted stop, inside `Session.begin()`. So if `add_division` existed, an itinerary would be committed after `cancel` too.
- RecgovCli.CreateItineraryOutcomes: "does not save" is the outcome the command reports. Whether rows reach the database is not modelled, for the reason given for `CreateItinerary`.
- Dates.AddDays: a helper for non-negative day counts that stay within range. `Dates.ShiftDays` is the full `date + timedelta(days=n)`, with its `OverflowError`.
- ItineraryMatching.DateCombos: works on day numbers, so `avail_date + timedelta(days=i)` past `date.max` does not raise `OverflowError` as it would in Python.
- Configuration, `lambda.py`, launchd file writing and the low-logic `recgov/recreationdotgov.py` and `recgov/ridb.py` copies are left out.

## Findings

| source | as written | input that shows it | evidently intended | confidence | as-written member | corrected member |
|---|---|---|---|---|---|---|
| recgov/cli.py:212 | `itinerary.add_division(division)` is called, but the recgov `Itinerary` model (recgov/models/itinerary.py:18-33) and its base class define no `add_division`. The first accepted stop raises `AttributeError`, `Session.begin()` rolls back, and nothing is saved (`RecgovCli.SaveOneStopRaises`). | A reservable division named `Alpha`; the answers `Alpha`, then `save`. | The stop is appended to `itinerary.divisions`, and `save` stores a one-stop itinerary (`RecgovCli.CreateItineraryOutcomes`). | not executed | RecgovCli.CreateItineraryAsWritten | RecgovCli.CreateItinerary |
