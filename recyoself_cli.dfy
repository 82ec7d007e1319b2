/**
 * The decisions of the newer command-line front end (`recyoself.cli`): the chained matcher
 * and its reversed call, the default end dates, which lottery a search uses, and the
 * `create_itinerary` prompt loop. Prompts and their answers are inputs; printing is left out.
 */
module RecyoselfCli {
  import opened Wrappers
  import opened Strings
  import opened Dates
  import opened Timeline
  import opened Divisions
  import opened Itineraries
  import opened Lotteries
  import opened DivisionSelection
  import opened ItineraryMatching
  import opened DivisionAvailabilities

  // ---------------------------------------------------------------------------
  // find_division_availability_date_matches and the reversed search
  // ---------------------------------------------------------------------------

  method FindDivisionAvailabilityDateMatches(availabilities: seq<DivisionAvailability>)
    returns (matchingAvailDates: seq<seq<(DivisionAvailability, int)>>)
    requires |availabilities| > 0
    ensures matchingAvailDates == ChainedMatches(availabilities, AvailableDateLists(availabilities))
  {
    ghost var lists := AvailableDateLists(availabilities);
    matchingAvailDates := [];
    var candidates := availabilities[0].AvailableDates(1);
    for j := 0 to |candidates|
      invariant matchingAvailDates == CombosFor(availabilities, KeptBases(lists, candidates[..j]))
    {
      var availDate := candidates[j];
      var dateCombos := DateCombos(availabilities, availDate);
      var allPresent := forall k | 0 <= k < |dateCombos| :: dateCombos[k].1 in dateCombos[k].0.AvailableDates(1);
      CombosPresent(availabilities, availDate, dateCombos);
      MatchStep(availabilities, lists, candidates, j, matchingAvailDates);
      if allPresent {
        matchingAvailDates := matchingAvailDates + [dateCombos];
      }
    }
    assert candidates[..|candidates|] == candidates;
  }

  /** `avail_matches_reversed`: the matcher on the reversed stops, or nothing without `reversable`. */
  method FindReversedMatches(availabilities: seq<DivisionAvailability>, reversable: bool)
    returns (reversed: seq<seq<(DivisionAvailability, int)>>)
    requires |availabilities| > 0
    ensures !reversable ==> reversed == []
    ensures reversable ==>
      reversed == ChainedMatches(Reverse(availabilities), Reverse(AvailableDateLists(availabilities)))
  {
    reversed := [];
    if reversable {
      reversed := FindDivisionAvailabilityDateMatches(Reverse(availabilities));
      AvailableDateListsReverse(availabilities);
    }
  }

  // ---------------------------------------------------------------------------
  // Default end dates
  // ---------------------------------------------------------------------------

  /** `find_itinerary_dates`: the end of the search window, the start date when none is given. */
  function ItineraryEndDate(start: Ymd, endDate: Option<Ymd>): (r: Ymd)
    ensures endDate.None? ==> r == start
    ensures endDate.Some? ==> r == endDate.value
  {
    if endDate.Some? then endDate.value else start
  }

  /**
   * `find_campsite_dates`: the campsite search runs through the end date (the start date
   * when none is given) plus the trip length, so a block starting on the end date fits.
   * `num_days` is any integer; a result outside `date.min .. date.max` is `OverflowError`.
   */
  function CampsiteSearchEnd(start: Ymd, endDate: Option<Ymd>, numDays: int): (r: Result<Ymd>)
    requires Valid(start) && (endDate.Some? ==> Valid(endDate.value))
    ensures var base := if endDate.Some? then endDate.value else start;
      && (r.Success? <==> 1 <= Ordinal(base) + numDays <= Ordinal(LastDay))
      && (r.Failure? ==> r.error == OverflowError)
      && (r.Success? ==> Valid(r.value) && Ordinal(r.value) == Ordinal(base) + numDays)
    ensures endDate.None? && r.Success? ==> Ordinal(r.value) - Ordinal(start) == numDays
  {
    ShiftDays(ItineraryEndDate(start, endDate), numDays)
  }

  // ---------------------------------------------------------------------------
  // Which lottery a search uses
  // ---------------------------------------------------------------------------

  predicate LotteryIdMatches(l: Lottery, lotteryId: string) {
    Lower(l.lotteryId) == Lower(lotteryId)
  }

  /** The first lottery whose id equals `lotteryId` ignoring case. */
  function FirstLotteryWithId(lotteries: seq<Lottery>, lotteryId: string): (r: Option<nat>)
    ensures r.Some? ==> r.value < |lotteries| && LotteryIdMatches(lotteries[r.value], lotteryId)
    ensures r.Some? ==> forall j :: 0 <= j < r.value ==> !LotteryIdMatches(lotteries[j], lotteryId)
    ensures r.None? ==> forall j :: 0 <= j < |lotteries| ==> !LotteryIdMatches(lotteries[j], lotteryId)
    decreases |lotteries|
  {
    if lotteries == [] then None
    else if LotteryIdMatches(lotteries[0], lotteryId) then Some(0)
    else match FirstLotteryWithId(lotteries[1..], lotteryId)
      case None => None
      case Some(i) => Some(i + 1)
  }

  /**
   * The lottery choice of `find_itinerary_dates`: none without lotteries, the only one
   * without asking, the first with the given id (case-insensitive) or `ValueError`, and
   * otherwise the one picked at the prompt (`picked`, an index), aborting without a pick.
   */
  method SelectLottery(lotteries: seq<Lottery>, lotteryId: Option<string>, picked: Option<nat>)
    returns (r: Result<Option<Lottery>>)
    requires picked.Some? ==> picked.value < |lotteries|
    ensures |lotteries| == 0 ==> r == Success(None)
    ensures |lotteries| == 1 ==> r == Success(Some(lotteries[0]))
    ensures |lotteries| >= 2 && lotteryId.Some? && lotteryId.value != "" ==>
      match FirstLotteryWithId(lotteries, lotteryId.value)
      case Some(i) => r == Success(Some(lotteries[i]))
      case None => r.Failure? && r.error.ValueError?
    ensures |lotteries| >= 2 && (lotteryId.None? || lotteryId.value == "") ==>
      r == if picked.Some? then Success(Some(lotteries[picked.value])) else Failure(Abort)
  {
    var relevantLottery: Option<Lottery> := None;
    if |lotteries| == 0 {
    } else if |lotteries| == 1 {
      relevantLottery := Some(lotteries[0]);
    } else if lotteryId.Some? && lotteryId.value != "" {
      var i := 0;
      while i < |lotteries|
        invariant 0 <= i <= |lotteries| && relevantLottery.None?
        invariant forall j :: 0 <= j < i ==> !LotteryIdMatches(lotteries[j], lotteryId.value)
      {
        if LotteryIdMatches(lotteries[i], lotteryId.value) {
          relevantLottery := Some(lotteries[i]);
          break;
        }
        i := i + 1;
      }
      if relevantLottery.None? {
        return Failure(ValueError("Could not find lottery with id: " + lotteryId.value));
      }
    } else {
      if picked.None? {
        return Failure(Abort);
      }
      relevantLottery := Some(lotteries[picked.value]);
    }
    return Success(relevantLottery);
  }

  // ---------------------------------------------------------------------------
  // create_itinerary
  // ---------------------------------------------------------------------------

  /**
   * The stops the answers add, none of which ends the loop: an empty answer is refused,
   * anything else (`list` included, after the listing) goes through the selection rule.
   */
  function StopsChosen(reservable: seq<Division>, answers: seq<Option<string>>): seq<Division>
    decreases |answers|
  {
    if answers == [] then []
    else
      var before := StopsChosen(reservable, answers[..|answers| - 1]);
      var a := answers[|answers| - 1];
      if a.None? || a.value == "" then before
      else match DivisionToAdd(reservable, a.value)
        case Some(d) => before + [d]
        case None => before
  }

  /** How `create_itinerary` ends for the permit's divisions and the prompted answers. */
  function CreateItineraryOutcome(divisions: seq<Division>, name: string, permitId: int,
                                  answers: seq<Option<string>>): ItineraryOutcome
    requires HasTerminator(answers)
  {
    var reservable := Select(divisions, IsReservable);
    if reservable == [] then NoReservableDivisions
    else
      var t := FirstTerminator(answers);
      if answers[t] != Some("save") then Aborted
      else match ItineraryOf(name, permitId, StopsChosen(reservable, answers[..t]))
        case None => NotSaved
        case Some(it) => Saved(it)
  }

  method CreateItinerary(divisions: seq<Division>, name: string, permitId: int, answers: seq<Option<string>>)
    returns (outcome: ItineraryOutcome)
    requires HasTerminator(answers)
    ensures outcome == CreateItineraryOutcome(divisions, name, permitId, answers)
  {
    var reservableDivisions := Select(divisions, IsReservable);
    if reservableDivisions == [] {
      return NoReservableDivisions;
    }
    ghost var t := FirstTerminator(answers);
    var itinerary: Option<Itinerary> := None;
    var i := 0;
    while true
      invariant 0 <= i <= t
      invariant itinerary == ItineraryOf(name, permitId, StopsChosen(reservableDivisions, answers[..i]))
      decreases t - i
    {
      var userInput := answers[i];
      assert answers[..i + 1][..i] == answers[..i];
      if userInput == Some("save") {
        break;
      } else if userInput == Some("cancel") || userInput.None? {
        return Aborted;
      } else if userInput.value == "" {
        i := i + 1;
        continue;
      }
      var division := DivisionToAdd(reservableDivisions, userInput.value);
      if division.Some? {
        if itinerary.None? {
          itinerary := Some(Itinerary(name, permitId, []));
        }
        itinerary := Some(itinerary.value.(divisions := itinerary.value.divisions + [division.value]));
      }
      i := i + 1;
    }
    if itinerary.None? {
      return NotSaved;
    }
    return Saved(itinerary.value);
  }

  /** Every stop an answer adds is a reservable division of the permit. */
  lemma {:induction false} StopsChosenAreReservable(reservable: seq<Division>, answers: seq<Option<string>>)
    ensures forall d :: d in StopsChosen(reservable, answers) ==> d in reservable
    decreases |answers|
  {
    if answers != [] {
      StopsChosenAreReservable(reservable, answers[..|answers| - 1]);
      var a := answers[|answers| - 1];
      if a.Some? && a.value != "" {
        DivisionToAddRules(reservable, a.value);
      }
    }
  }

  /**
   * A saved itinerary holds the stops chosen before `save`, all reservable divisions of
   * the permit, at least one; `cancel` or no answer aborts; answers after the first
   * terminator are never read.
   */
  lemma CreateItineraryOutcomes(divisions: seq<Division>, name: string, permitId: int,
                                answers: seq<Option<string>>)
    requires HasTerminator(answers)
    ensures var o := CreateItineraryOutcome(divisions, name, permitId, answers);
      o.Saved? ==>
        && answers[FirstTerminator(answers)] == Some("save")
        && o.itinerary.name == name && |o.itinerary.divisions| >= 1
        && forall d :: d in o.itinerary.divisions ==> d in divisions && IsReservable(d)
    ensures var o := CreateItineraryOutcome(divisions, name, permitId, answers);
      (exists d :: d in divisions && IsReservable(d)) && answers[FirstTerminator(answers)] != Some("save") ==>
        o == Aborted
    ensures var t := FirstTerminator(answers);
      HasTerminator(answers[..t + 1]) &&
      CreateItineraryOutcome(divisions, name, permitId, answers[..t + 1]) ==
      CreateItineraryOutcome(divisions, name, permitId, answers)
  {
    var reservable := Select(divisions, IsReservable);
    var t := FirstTerminator(answers);
    SelectMembers(divisions, IsReservable);
    StopsChosenAreReservable(reservable, answers[..t]);
    var short := answers[..t + 1];
    assert EndsPrompt(short[t]);
    assert FirstTerminator(short) == t;
    assert short[..t] == answers[..t];
  }
}
