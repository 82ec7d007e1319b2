/**
 * The decisions of the older command-line front end (`recgov.cli`): its chained matcher,
 * the reversed call and the `create_itinerary` prompt loop, which here ends on `save`,
 * `cancel` or no answer without aborting and saves only after `save`.
 */
module RecgovCli {
  import opened Wrappers
  import opened Timeline
  import opened Divisions
  import opened Itineraries
  import opened DivisionSelection
  import opened ItineraryMatching
  import opened DivisionAvailabilities

  method FindAvailabilityDateMatches(availabilities: seq<DivisionAvailability>)
    returns (matchingAvailDates: seq<seq<(DivisionAvailability, int)>>)
    requires |availabilities| > 0
    ensures matchingAvailDates == ChainedMatches(availabilities, AvailableDateLists(availabilities))
  {
    ghost var lists := AvailableDateLists(availabilities);
    matchingAvailDates := [];
    var candidates := availabilities[0].AvailableDates(1);
    for j := 0 to |candidates|
      invariant matchingAvailDates == CombosFor(availabilities, KeptBases(lists, candidates[..j]))
    {
      var availDate := candidates[j];
      var dateCombos := DateCombos(availabilities, availDate);
      var allPresent := forall k | 0 <= k < |dateCombos| :: dateCombos[k].1 in dateCombos[k].0.AvailableDates(1);
      CombosPresent(availabilities, availDate, dateCombos);
      MatchStep(availabilities, lists, candidates, j, matchingAvailDates);
      if allPresent {
        matchingAvailDates := matchingAvailDates + [dateCombos];
      }
    }
    assert candidates[..|candidates|] == candidates;
  }

  /** `avail_matches_reversed`: the matcher on the reversed stops, or nothing without `reversable`. */
  method FindReversedMatches(availabilities: seq<DivisionAvailability>, reversable: bool)
    returns (reversed: seq<seq<(DivisionAvailability, int)>>)
    requires |availabilities| > 0
    ensures !reversable ==> reversed == []
    ensures reversable ==>
      reversed == ChainedMatches(Reverse(availabilities), Reverse(AvailableDateLists(availabilities)))
  {
    reversed := [];
    if reversable {
      reversed := FindAvailabilityDateMatches(Reverse(availabilities));
      AvailableDateListsReverse(availabilities);
    }
  }

  /** The stops the answers add, none of which ends the loop; every answer goes through the rule. */
  function StopsChosen(reservable: seq<Division>, answers: seq<Option<string>>): seq<Division>
    decreases |answers|
  {
    if answers == [] then []
    else
      var before := StopsChosen(reservable, answers[..|answers| - 1]);
      var a := answers[|answers| - 1];
      if a.None? then before
      else match DivisionToAdd(reservable, a.value)
        case Some(d) => before + [d]
        case None => before
  }

  /** How `create_itinerary` ends: saved only after `save` with at least one stop chosen. */
  function CreateItineraryOutcome(divisions: seq<Division>, name: string, permitId: int,
                                  answers: seq<Option<string>>): ItineraryOutcome
    requires HasTerminator(answers)
  {
    var reservable := Select(divisions, IsReservable);
    if reservable == [] then NoReservableDivisions
    else
      var t := FirstTerminator(answers);
      var itinerary := ItineraryOf(name, permitId, StopsChosen(reservable, answers[..t]));
      if answers[t].None? || answers[t] == Some("cancel") || itinerary.None? then NotSaved
      else Saved(itinerary.value)
  }

  method CreateItinerary(divisions: seq<Division>, name: string, permitId: int, answers: seq<Option<string>>)
    returns (outcome: ItineraryOutcome)
    requires HasTerminator(answers)
    ensures outcome == CreateItineraryOutcome(divisions, name, permitId, answers)
  {
    var reservableDivisions := Select(divisions, IsReservable);
    if reservableDivisions == [] {
      return NoReservableDivisions;
    }
    ghost var t := FirstTerminator(answers);
    var itinerary: Option<Itinerary> := None;
    var userInput: Option<string> := None;
    var i := 0;
    while true
      invariant 0 <= i <= t
      invariant itinerary == ItineraryOf(name, permitId, StopsChosen(reservableDivisions, answers[..i]))
      decreases t - i
    {
      userInput := answers[i];
      assert answers[..i + 1][..i] == answers[..i];
      if userInput == Some("save") || userInput == Some("cancel") || userInput.None? {
        break;
      }
      var division := DivisionToAdd(reservableDivisions, userInput.value);
      if division.Some? {
        if itinerary.None? {
          itinerary := Some(Itinerary(name, permitId, []));
        }
        itinerary := Some(itinerary.value.(divisions := itinerary.value.divisions + [division.value]));
      }
      i := i + 1;
    }
    if userInput.None? || userInput == Some("cancel") || itinerary.None? {
      return NotSaved;
    }
    return Saved(itinerary.value);
  }

  lemma {:induction false} StopsChosenAreReservable(reservable: seq<Division>, answers: seq<Option<string>>)
    ensures forall d :: d in StopsChosen(reservable, answers) ==> d in reservable
    decreases |answers|
  {
    if answers != [] {
      StopsChosenAreReservable(reservable, answers[..|answers| - 1]);
      var a := answers[|answers| - 1];
      if a.Some? {
        DivisionToAddRules(reservable, a.value);
      }
    }
  }

  /**
   * Nothing is saved after `cancel` or no answer; a saved itinerary follows `save` and holds
   * at least one reservable division of the permit; answers after the terminator are unread.
   */
  lemma CreateItineraryOutcomes(divisions: seq<Division>, name: string, permitId: int,
                                answers: seq<Option<string>>)
    requires HasTerminator(answers)
    ensures var o := CreateItineraryOutcome(divisions, name, permitId, answers);
      var t := FirstTerminator(answers);
      (answers[t].None? || answers[t] == Some("cancel")) ==> !o.Saved?
    ensures var o := CreateItineraryOutcome(divisions, name, permitId, answers);
      o.Saved? ==>
        && answers[FirstTerminator(answers)] == Some("save")
        && o.itinerary.name == name && |o.itinerary.divisions| >= 1
        && forall d :: d in o.itinerary.divisions ==> d in divisions && IsReservable(d)
    ensures var t := FirstTerminator(answers);
      HasTerminator(answers[..t + 1]) &&
      CreateItineraryOutcome(divisions, name, permitId, answers[..t + 1]) ==
      CreateItineraryOutcome(divisions, name, permitId, answers)
  {
    var reservable := Select(divisions, IsReservable);
    var t := FirstTerminator(answers);
    SelectMembers(divisions, IsReservable);
    StopsChosenAreReservable(reservable, answers[..t]);
    var short := answers[..t + 1];
    assert EndsPrompt(short[t]);
    assert FirstTerminator(short) == t;
    assert short[..t] == answers[..t];
  }

  // ---------------------------------------------------------------------------
  // `create_itinerary` as written: `Itinerary.add_division` does not exist
  // ---------------------------------------------------------------------------

  const NoAddDivision := "'Itinerary' object has no attribute 'add_division'"

  /**
   * `create_itinerary` as the code stands: accepting a stop calls `itinerary.add_division`,
   * which the recgov `Itinerary` model does not define, so the first accepted stop raises
   * `AttributeError` and `Session.begin()` rolls the session back. Only sessions that
   * accept no stop run to the end, and those save nothing.
   */
  function CreateItineraryAsWritten(divisions: seq<Division>, name: string, permitId: int,
                                    answers: seq<Option<string>>): (r: Result<ItineraryOutcome>)
    requires HasTerminator(answers)
    ensures r.Success? ==> !r.value.Saved?
    ensures r.Failure? ==> r.error == AttributeError(NoAddDivision)
  {
    var reservable := Select(divisions, IsReservable);
    if reservable == [] then Success(NoReservableDivisions)
    else if StopsChosen(reservable, answers[..FirstTerminator(answers)]) != [] then
      Failure(AttributeError(NoAddDivision))
    else Success(NotSaved)
  }

  /**
   * The code as written and the intended behaviour agree whenever the former does not
   * raise; every session the intended behaviour saves raises instead.
   */
  lemma AsWrittenAgreesOrRaises(divisions: seq<Division>, name: string, permitId: int,
                                answers: seq<Option<string>>)
    requires HasTerminator(answers)
    ensures var r := CreateItineraryAsWritten(divisions, name, permitId, answers);
      r.Success? ==> r.value == CreateItineraryOutcome(divisions, name, permitId, answers)
    ensures CreateItineraryOutcome(divisions, name, permitId, answers).Saved? ==>
      CreateItineraryAsWritten(divisions, name, permitId, answers).Failure?
  {
  }

  /**
   * Typing a reservable division's own name and then `save` should save a one-stop
   * itinerary; the code as written raises `AttributeError` instead.
   */
  lemma SaveOneStopRaises(divisions: seq<Division>, name: string, permitId: int, d: Division)
    requires d in divisions && IsReservable(d)
    requires d.name != "save" && d.name != "cancel"
    ensures var answers := [Some(d.name), Some("save")];
      && HasTerminator(answers)
      && CreateItineraryOutcome(divisions, name, permitId, answers).Saved?
      && CreateItineraryAsWritten(divisions, name, permitId, answers) == Failure(AttributeError(NoAddDivision))
  {
    var answers := [Some(d.name), Some("save")];
    var reservable := Select(divisions, IsReservable);
    SelectMembers(divisions, IsReservable);
    assert d in reservable;
    assert EndsPrompt(answers[1]) && !EndsPrompt(answers[0]);
    assert FirstTerminator(answers) == 1;
    DivisionToAddRules(reservable, d.name);
    assert answers[..1] == [Some(d.name)] && answers[..1][..0] == [];
    assert StopsChosen(reservable, answers[..1]) == [DivisionToAdd(reservable, d.name).value];
  }
}
