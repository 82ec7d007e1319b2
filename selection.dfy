/**
 * The rule both `create_itinerary` prompts use to turn one typed answer into a stop:
 * case-insensitive substring matches over the reservable divisions, then exact matches
 * among those.
 */
module DivisionSelection {
  import opened Strings
  import opened Timeline
  import opened Wrappers
  import opened Divisions
  import opened Itineraries

  function NameContains(answer: string): Division -> bool {
    (d: Division) => IsSubstring(Lower(answer), Lower(d.name))
  }

  function NameEquals(answer: string): Division -> bool {
    (d: Division) => Lower(answer) == Lower(d.name)
  }

  /** `matching_divisions`. */
  function MatchingDivisions(reservable: seq<Division>, answer: string): seq<Division> {
    Select(reservable, NameContains(answer))
  }

  /** `exact_match`, taken among the matching divisions. */
  function ExactMatches(reservable: seq<Division>, answer: string): seq<Division> {
    Select(MatchingDivisions(reservable, answer), NameEquals(answer))
  }

  /**
   * The stop one answer adds: none without a match, none for several matches without an
   * exact one, else the first exact match or failing that the (only) match.
   */
  function DivisionToAdd(reservable: seq<Division>, answer: string): Option<Division> {
    var matching := MatchingDivisions(reservable, answer);
    var exact := ExactMatches(reservable, answer);
    if |matching| == 0 then None
    else if |matching| > 1 && |exact| == 0 then None
    else Some(if |exact| > 0 then exact[0] else matching[0])
  }

  /** An exact match is always a substring match. */
  lemma ExactIsMatching(d: Division, answer: string)
    ensures NameEquals(answer)(d) ==> NameContains(answer)(d)
  {
    if NameEquals(answer)(d) {
      SelfIsSubstring(Lower(d.name));
    }
  }

  /**
   * The selection rules: nothing is added exactly when no name contains the answer or
   * several do and none equals it; an added stop is one of the reservable divisions whose
   * name contains the answer; a name equal to the answer wins, and the first such name in
   * reservable order is the one added; a lone match is taken.
   */
  lemma DivisionToAddRules(reservable: seq<Division>, answer: string)
    ensures DivisionToAdd(reservable, answer).None? <==>
      (forall d :: d in reservable ==> !NameContains(answer)(d)) ||
      (|MatchingDivisions(reservable, answer)| > 1 && forall d :: d in reservable ==> !NameEquals(answer)(d))
    ensures DivisionToAdd(reservable, answer).Some? ==>
      var d := DivisionToAdd(reservable, answer).value;
      d in reservable && IsSubstring(Lower(answer), Lower(d.name))
    ensures (exists d :: d in reservable && NameEquals(answer)(d)) ==>
      DivisionToAdd(reservable, answer).Some? && NameEquals(answer)(DivisionToAdd(reservable, answer).value)
    ensures |MatchingDivisions(reservable, answer)| == 1 ==>
      DivisionToAdd(reservable, answer) == Some(MatchingDivisions(reservable, answer)[0])
    ensures forall i ::
      (0 <= i < |reservable| && NameEquals(answer)(reservable[i]) &&
       forall j :: 0 <= j < i ==> !NameEquals(answer)(reservable[j])) ==>
      DivisionToAdd(reservable, answer) == Some(reservable[i])
  {
    forall i | 0 <= i < |reservable| && NameEquals(answer)(reservable[i]) &&
      (forall j :: 0 <= j < i ==> !NameEquals(answer)(reservable[j]))
      ensures DivisionToAdd(reservable, answer) == Some(reservable[i])
    {
      FirstExactMatch(reservable, answer, i);
    }
    var matching := MatchingDivisions(reservable, answer);
    var exact := ExactMatches(reservable, answer);
    SelectMembers(reservable, NameContains(answer));
    SelectMembers(matching, NameEquals(answer));
    forall d | d in reservable ensures NameEquals(answer)(d) ==> NameContains(answer)(d) {
      ExactIsMatching(d, answer);
    }
    if |matching| == 0 {
      assert forall d :: d in reservable ==> !NameContains(answer)(d);
    }
    if exists d :: d in reservable && NameEquals(answer)(d) {
      var d :| d in reservable && NameEquals(answer)(d);
      assert d in matching && d in exact;
    }
    if |exact| > 0 {
      assert exact[0] in exact;
    } else if |matching| > 0 {
      assert matching[0] in matching;
    }
  }

  /** `exact_match[0]` is the first reservable division whose name equals the answer. */
  lemma FirstExactMatch(reservable: seq<Division>, answer: string, i: nat)
    requires i < |reservable| && NameEquals(answer)(reservable[i])
    requires forall j :: 0 <= j < i ==> !NameEquals(answer)(reservable[j])
    ensures DivisionToAdd(reservable, answer) == Some(reservable[i])
  {
    forall d ensures NameEquals(answer)(d) ==> NameContains(answer)(d) {
      ExactIsMatching(d, answer);
    }
    SelectSelect(reservable, NameContains(answer), NameEquals(answer));
    SelectFirst(reservable, NameEquals(answer), i);
    ExactIsMatching(reservable[i], answer);
    SelectMembers(reservable, NameContains(answer));
    assert reservable[i] in MatchingDivisions(reservable, answer);
  }

  /** The answers that end both prompt loops: `save`, `cancel`, or no answer at all. */
  predicate EndsPrompt(a: Option<string>) {
    a == Some("save") || a == Some("cancel") || a.None?
  }

  /** The prompted answers run out only after one that ends the loop. */
  predicate HasTerminator(answers: seq<Option<string>>) {
    exists i :: 0 <= i < |answers| && EndsPrompt(answers[i])
  }

  /** How an itinerary session ended. */
  datatype ItineraryOutcome =
    | NoReservableDivisions
    | Aborted
    | NotSaved
    | Saved(itinerary: Itinerary)

  /** The first answer that ends the prompt loop. */
  function FirstTerminator(answers: seq<Option<string>>): (t: nat)
    requires HasTerminator(answers)
    ensures t < |answers| && EndsPrompt(answers[t])
    ensures forall i :: 0 <= i < t ==> !EndsPrompt(answers[i])
    decreases |answers|
  {
    if EndsPrompt(answers[0]) then 0
    else
      assert HasTerminator(answers[1..]) by {
        var j :| 0 <= j < |answers| && EndsPrompt(answers[j]);
        assert answers[1..][j - 1] == answers[j];
      }
      1 + FirstTerminator(answers[1..])
  }

  /** The itinerary held after adding `stops` one by one (created at the first stop). */
  function ItineraryOf(name: string, permitId: int, stops: seq<Division>): Option<Itinerary> {
    if stops == [] then None else Some(Itinerary(name, permitId, stops))
  }
}
