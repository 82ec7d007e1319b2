/**
 * The chained itinerary matcher shared by both command-line front ends: for every base
 * date taken from stop 0's available dates, stop `i` must be available on day `base + i`.
 * Stops are any values; `dateLists[i]` is stop `i`'s `available_dates()`.
 */
module ItineraryMatching {
  import opened Timeline
  import opened DivisionAvailabilities

  /** `date_combos`: stop `i` paired with day `base + i`. */
  function DateCombos<T>(stops: seq<T>, base: int): (c: seq<(T, int)>)
    ensures |c| == |stops|
    ensures forall i :: 0 <= i < |stops| ==> c[i] == (stops[i], base + i)
  {
    seq(|stops|, i requires 0 <= i < |stops| => (stops[i], base + i))
  }

  /** Every stop `i` is available on day `base + i`. */
  predicate AllPresent(dateLists: seq<seq<int>>, base: int) {
    forall i :: 0 <= i < |dateLists| ==> base + i in dateLists[i]
  }

  function Fits(dateLists: seq<seq<int>>): int -> bool {
    (base: int) => AllPresent(dateLists, base)
  }

  /** The candidates among `bases` that fit, in their order. */
  function KeptBases(dateLists: seq<seq<int>>, bases: seq<int>): seq<int> {
    Select(bases, Fits(dateLists))
  }

  function CombosFor<T>(stops: seq<T>, bases: seq<int>): (m: seq<seq<(T, int)>>)
    ensures |m| == |bases|
    ensures forall k :: 0 <= k < |bases| ==> m[k] == DateCombos(stops, bases[k])
  {
    seq(|bases|, k requires 0 <= k < |bases| => DateCombos(stops, bases[k]))
  }

  /** What the matcher returns: one candidate per fitting entry of stop 0's dates. */
  function ChainedMatches<T>(stops: seq<T>, dateLists: seq<seq<int>>): seq<seq<(T, int)>>
    requires |dateLists| >= 1
  {
    CombosFor(stops, KeptBases(dateLists, dateLists[0]))
  }

  lemma CombosForConcat<T>(stops: seq<T>, a: seq<int>, b: seq<int>)
    ensures CombosFor(stops, a + b) == CombosFor(stops, a) + CombosFor(stops, b)
  {
  }

  /** One more candidate: it is kept iff it fits. */
  lemma KeptBasesSnoc(dateLists: seq<seq<int>>, bases: seq<int>, x: int)
    ensures KeptBases(dateLists, bases + [x]) ==
      KeptBases(dateLists, bases) + (if AllPresent(dateLists, x) then [x] else [])
  {
    SelectConcat(bases, [x], Fits(dateLists));
    assert [x][1..] == [];
  }

  /** The matcher's loop after candidate `j`: its combination is appended iff it fits. */
  lemma MatchStep<T>(stops: seq<T>, dateLists: seq<seq<int>>, candidates: seq<int>, j: nat,
                     acc: seq<seq<(T, int)>>)
    requires j < |candidates|
    requires acc == CombosFor(stops, KeptBases(dateLists, candidates[..j]))
    ensures (if AllPresent(dateLists, candidates[j]) then acc + [DateCombos(stops, candidates[j])] else acc)
      == CombosFor(stops, KeptBases(dateLists, candidates[..j + 1]))
  {
    var x := candidates[j];
    assert candidates[..j + 1] == candidates[..j] + [x];
    KeptBasesSnoc(dateLists, candidates[..j], x);
    CombosForConcat(stops, KeptBases(dateLists, candidates[..j]), if AllPresent(dateLists, x) then [x] else []);
  }

  /**
   * The base dates of the matches are stop 0's dates that fit, in stop 0's order: each
   * fitting entry yields one match (duplicates included) and no other entry yields any.
   */
  lemma MatchedBases(dateLists: seq<seq<int>>, b: int)
    requires |dateLists| >= 1
    ensures IsSubsequence(KeptBases(dateLists, dateLists[0]), dateLists[0])
    ensures multiset(KeptBases(dateLists, dateLists[0]))[b] ==
      if AllPresent(dateLists, b) then multiset(dateLists[0])[b] else 0
    ensures b in KeptBases(dateLists, dateLists[0]) <==> b in dateLists[0] && AllPresent(dateLists, b)
  {
    SelectSubsequence(dateLists[0], Fits(dateLists));
    SelectCount(dateLists[0], Fits(dateLists), b);
  }

  /**
   * Every match has one pair per stop, pair `i` being stop `i` on day `base + i`, and each
   * such day is in that stop's list.
   */
  lemma MatchShape<T>(stops: seq<T>, dateLists: seq<seq<int>>, m: seq<(T, int)>)
    requires |dateLists| >= 1 && |stops| == |dateLists|
    requires m in ChainedMatches(stops, dateLists)
    ensures |m| == |stops|
    ensures forall i :: 0 <= i < |m| ==> m[i] == (stops[i], m[0].1 + i) && m[i].1 in dateLists[i]
    ensures m[0].1 in dateLists[0]
  {
    var bases := KeptBases(dateLists, dateLists[0]);
    var k :| 0 <= k < |bases| && ChainedMatches(stops, dateLists)[k] == m;
    assert bases[k] in bases;
    MatchedBases(dateLists, bases[k]);
  }

  /** Conversely, every fitting date of stop 0 gives a match. */
  lemma FittingDateMatches<T>(stops: seq<T>, dateLists: seq<seq<int>>, b: int)
    requires |dateLists| >= 1 && |stops| == |dateLists|
    requires b in dateLists[0] && AllPresent(dateLists, b)
    ensures DateCombos(stops, b) in ChainedMatches(stops, dateLists)
  {
    MatchedBases(dateLists, b);
    var bases := KeptBases(dateLists, dateLists[0]);
    var k :| 0 <= k < |bases| && bases[k] == b;
    assert ChainedMatches(stops, dateLists)[k] == DateCombos(stops, b);
  }

  /** With a single stop every date of that stop yields its own one-pair match, in order. */
  lemma SingleStopMatchesEveryDate<T>(stop: T, dates: seq<int>)
    ensures ChainedMatches([stop], [dates]) == CombosFor([stop], dates)
  {
    forall i | 0 <= i < |dates| ensures Fits([dates])(dates[i]) {
      assert dates[i] + 0 in [dates][0];
    }
    SelectAll(dates, Fits([dates]));
  }

  /** Python's `s[::-1]`. */
  function Reverse<T>(s: seq<T>): (r: seq<T>)
    ensures |r| == |s|
    ensures forall i :: 0 <= i < |s| ==> r[i] == s[|s| - 1 - i]
  {
    seq(|s|, i requires 0 <= i < |s| => s[|s| - 1 - i])
  }

  /**
   * A reversed-itinerary match walks the stops backwards: pair `i` is the stop `n - 1 - i`
   * on day `base + i`, where `base` is an available date of the last stop.
   */
  lemma ReversedMatchShape<T>(stops: seq<T>, dateLists: seq<seq<int>>, m: seq<(T, int)>)
    requires |dateLists| >= 1 && |stops| == |dateLists|
    requires m in ChainedMatches(Reverse(stops), Reverse(dateLists))
    ensures |m| == |stops|
    ensures forall i :: 0 <= i < |m| ==>
      m[i] == (stops[|stops| - 1 - i], m[0].1 + i) && m[i].1 in dateLists[|stops| - 1 - i]
    ensures m[0].1 in dateLists[|dateLists| - 1]
  {
    MatchShape(Reverse(stops), Reverse(dateLists), m);
  }

  // ---------------------------------------------------------------------------
  // The stops as division timelines, as both front ends call the matcher
  // ---------------------------------------------------------------------------

  /** Each stop's `available_dates()` (one slot), stop by stop. */
  function AvailableDateLists(avails: seq<DivisionAvailability>): (r: seq<seq<int>>)
    reads avails
    ensures |r| == |avails|
    ensures forall i :: 0 <= i < |avails| ==> r[i] == avails[i].AvailableDates(1)
    decreases |avails|
  {
    if avails == [] then [] else [avails[0].AvailableDates(1)] + AvailableDateLists(avails[1..])
  }

  /** The source's `all(...)` over the pairs is `AllPresent` on the stops' date lists. */
  lemma CombosPresent(availabilities: seq<DivisionAvailability>, availDate: int,
                      dateCombos: seq<(DivisionAvailability, int)>)
    requires dateCombos == DateCombos(availabilities, availDate)
    ensures (forall k | 0 <= k < |dateCombos| :: dateCombos[k].1 in dateCombos[k].0.AvailableDates(1)) ==
      AllPresent(AvailableDateLists(availabilities), availDate)
  {
  }

  lemma AvailableDateListsReverse(avails: seq<DivisionAvailability>)
    ensures AvailableDateLists(Reverse(avails)) == Reverse(AvailableDateLists(avails))
  {
  }
}
