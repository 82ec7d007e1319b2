/**
 * A campsite's per-date status timeline (`recgov.campsite_availability`): records carry a
 * status label, the timeline is read date-sorted, and `find_reservable_blocks` slides a
 * window over the eligible dates looking for runs of consecutive days.
 * Dates are day numbers (`date.toordinal()`).
 */
module CampsiteAvailabilities {
  import opened Timeline

  /** One date's status label; records compare by `date` only. */
  datatype CampsiteAvailabilityInfo = CampsiteAvailabilityInfo(date: int, availability: string) {
    predicate Available() { availability == "Available" }
    predicate Reserved() { availability == "Reserved" }
    predicate NotYetReservable() { availability == "NYR" }
    predicate ForManagement() { availability == "Management" }
  }

  function InfoDate(a: CampsiteAvailabilityInfo): int { a.date }

  /** Each of the four labels satisfies its own predicate and no other; any other label none. */
  lemma StatusLabels(a: CampsiteAvailabilityInfo)
    ensures a.availability == "Available" ==> a.Available() && !a.Reserved() && !a.NotYetReservable() && !a.ForManagement()
    ensures a.availability == "Reserved" ==> !a.Available() && a.Reserved() && !a.NotYetReservable() && !a.ForManagement()
    ensures a.availability == "NYR" ==> !a.Available() && !a.Reserved() && a.NotYetReservable() && !a.ForManagement()
    ensures a.availability == "Management" ==> !a.Available() && !a.Reserved() && !a.NotYetReservable() && a.ForManagement()
    ensures a.availability !in {"Available", "Reserved", "NYR", "Management"} ==>
      !a.Available() && !a.Reserved() && !a.NotYetReservable() && !a.ForManagement()
  {
  }

  /** The filter of the `dates` comprehension of `find_reservable_blocks`. */
  function Eligible(includeNyr: bool): CampsiteAvailabilityInfo -> bool {
    (a: CampsiteAvailabilityInfo) => a.Available() || (includeNyr && a.NotYetReservable())
  }

  lemma EligibleLabels(a: CampsiteAvailabilityInfo, includeNyr: bool)
    ensures Eligible(includeNyr)(a) <==> a.Available() || (includeNyr && a.NotYetReservable())
    ensures !includeNyr && a.NotYetReservable() ==> !Eligible(includeNyr)(a)
    ensures a.Reserved() || a.ForManagement() ==> !Eligible(includeNyr)(a)
  {
  }

  /** The eligible records of the date-sorted view, in order (`dates` in the source). */
  function EligibleRecords(records: seq<CampsiteAvailabilityInfo>, includeNyr: bool): seq<CampsiteAvailabilityInfo> {
    Select(SortBy(records, InfoDate), Eligible(includeNyr))
  }

  /** Python's `list(range(lo, hi))`. */
  function Range(lo: int, hi: int): (r: seq<int>)
    ensures |r| == if hi <= lo then 0 else hi - lo
    ensures forall k :: 0 <= k < |r| ==> r[k] == lo + k
  {
    if hi <= lo then [] else seq(hi - lo, k requires 0 <= k < hi - lo => lo + k)
  }

  /** The source's test `ords == list(range(ords[0], ords[-1] + 1))`. */
  predicate IsRunOfDays(ords: seq<int>)
    requires |ords| >= 1
  {
    ords == Range(ords[0], ords[|ords| - 1] + 1)
  }

  /** The range test holds exactly when every entry is the first one plus its offset. */
  lemma RunOfDaysIff(ords: seq<int>)
    requires |ords| >= 1
    ensures IsRunOfDays(ords) <==> forall k :: 0 <= k < |ords| ==> ords[k] == ords[0] + k
  {
    if forall k :: 0 <= k < |ords| ==> ords[k] == ords[0] + k {
      assert ords[|ords| - 1] == ords[0] + |ords| - 1;
      var r := Range(ords[0], ords[|ords| - 1] + 1);
      assert |r| == |ords|;
      assert forall k :: 0 <= k < |ords| ==> r[k] == ords[k];
    }
  }

  function Window(e: seq<CampsiteAvailabilityInfo>, i: nat, days: nat): seq<int>
    requires i + days <= |e|
  {
    Keys(e[i..i + days], InfoDate)
  }

  /** The reported pair for a block starting at position `i`. */
  function StartTag(e: seq<CampsiteAvailabilityInfo>, i: nat): (int, bool)
    requires i < |e|
  {
    (e[i].date, e[i].Available())
  }

  /** The windows the loop tests: positions `i` with `i + days < |e|`, from `left` on. */
  function Blocks(e: seq<CampsiteAvailabilityInfo>, days: int, left: nat): seq<(int, bool)>
    requires days >= 1
    decreases |e| - left
  {
    if left + days >= |e| then []
    else (if ConsecutiveFrom(e, left, days) then [StartTag(e, left)] else []) + Blocks(e, days, left + 1)
  }

  /** What `find_reservable_blocks(days, include_nyr)` returns for these records. */
  function ReservableBlocks(records: seq<CampsiteAvailabilityInfo>, days: int, includeNyr: bool): seq<(int, bool)>
    requires days >= 1
  {
    Blocks(EligibleRecords(records, includeNyr), days, 0)
  }

  /** Position `i` starts a run of `days` exactly consecutive day numbers. */
  predicate ConsecutiveFrom(e: seq<CampsiteAvailabilityInfo>, i: nat, days: nat)
    requires i + days <= |e|
  {
    forall j :: i <= j < i + days ==> e[j].date == e[i].date + (j - i)
  }

  /** Position `i` is tested by the loop and its window is a run. */
  predicate IsBlockAt(e: seq<CampsiteAvailabilityInfo>, days: nat, i: nat) {
    i + days < |e| && ConsecutiveFrom(e, i, days)
  }

  lemma WindowIsRunIff(e: seq<CampsiteAvailabilityInfo>, i: nat, days: nat)
    requires days >= 1 && i + days <= |e|
    ensures IsRunOfDays(Window(e, i, days)) <==> ConsecutiveFrom(e, i, days)
  {
    var w := Window(e, i, days);
    RunOfDaysIff(w);
    assert forall k :: 0 <= k < days ==> w[k] == e[i + k].date;
    if IsRunOfDays(w) {
      forall j | i <= j < i + days ensures e[j].date == e[i].date + (j - i) {
        assert w[j - i] == e[j].date;
      }
    }
  }

  /** The source's test on the slice of day numbers decides `ConsecutiveFrom`. */
  lemma RangeCheckIsRun(e: seq<CampsiteAvailabilityInfo>, i: nat, days: nat, ords: seq<int>)
    requires days >= 1 && i + days <= |e|
    requires ords == Keys(e, InfoDate)[i..i + days]
    ensures (ords == Range(ords[0], ords[|ords| - 1] + 1)) == ConsecutiveFrom(e, i, days)
  {
    assert ords == Window(e, i, days);
    WindowIsRunIff(e, i, days);
  }

  /** One step of the loop: the tested position, then the rest. */
  lemma BlocksStep(e: seq<CampsiteAvailabilityInfo>, days: int, left: nat)
    requires days >= 1 && left + days < |e|
    ensures Blocks(e, days, left) ==
      (if IsBlockAt(e, days, left) then [StartTag(e, left)] else []) + Blocks(e, days, left + 1)
  {
  }

  /** The loop's invariant survives one position, whichever way the source's range test goes. */
  lemma AccumulateStep(acc: seq<(int, bool)>, e: seq<CampsiteAvailabilityInfo>, days: int, left: nat, ords: seq<int>)
    requires days >= 1 && left + days < |e|
    requires ords == Keys(e, InfoDate)[left..left + days]
    requires acc + Blocks(e, days, left) == Blocks(e, days, 0)
    ensures ords == Range(ords[0], ords[|ords| - 1] + 1) ==>
      (acc + [(e[left].date, e[left].Available())]) + Blocks(e, days, left + 1) == Blocks(e, days, 0)
    ensures ords != Range(ords[0], ords[|ords| - 1] + 1) ==> acc + Blocks(e, days, left + 1) == Blocks(e, days, 0)
  {
    RangeCheckIsRun(e, left, days, ords);
    BlocksStep(e, days, left);
    if ConsecutiveFrom(e, left, days) {
      assert acc + ([StartTag(e, left)] + Blocks(e, days, left + 1))
        == (acc + [StartTag(e, left)]) + Blocks(e, days, left + 1);
    } else {
      assert [] + Blocks(e, days, left + 1) == Blocks(e, days, left + 1);
    }
  }

  lemma {:induction false} BlocksLength(e: seq<CampsiteAvailabilityInfo>, days: int, left: nat)
    requires days >= 1
    ensures |Blocks(e, days, left)| <= if left + days < |e| then |e| - days - left else 0
    decreases |e| - left
  {
    if left + days < |e| {
      BlocksLength(e, days, left + 1);
    }
  }

  /** The `k`-th reported pair is the start tag of a position from `left` on whose window is a run. */
  ghost predicate ReportedFrom(e: seq<CampsiteAvailabilityInfo>, days: nat, left: nat, tag: (int, bool)) {
    exists i: nat :: left <= i && IsBlockAt(e, days, i) && tag == StartTag(e, i)
  }

  /** Every reported pair is the start tag of a tested position whose window is a run. */
  lemma {:induction false} BlocksSound(e: seq<CampsiteAvailabilityInfo>, days: int, left: nat)
    requires days >= 1
    ensures forall k :: 0 <= k < |Blocks(e, days, left)| ==> ReportedFrom(e, days, left, Blocks(e, days, left)[k])
    decreases |e| - left
  {
    if left + days < |e| {
      BlocksSound(e, days, left + 1);
      BlocksStep(e, days, left);
      var r := Blocks(e, days, left);
      var rest := Blocks(e, days, left + 1);
      var head := if IsBlockAt(e, days, left) then [StartTag(e, left)] else [];
      forall k | 0 <= k < |r| ensures ReportedFrom(e, days, left, r[k]) {
        if k < |head| {
          assert IsBlockAt(e, days, left) && r[k] == StartTag(e, left);
        } else {
          assert r[k] == rest[k - |head|];
          assert ReportedFrom(e, days, left + 1, rest[k - |head|]);
          var i: nat :| left + 1 <= i && IsBlockAt(e, days, i) && rest[k - |head|] == StartTag(e, i);
          assert left <= i && IsBlockAt(e, days, i) && r[k] == StartTag(e, i);
        }
      }
    }
  }

  /** Every tested position whose window is a run is reported. */
  lemma {:induction false} BlocksComplete(e: seq<CampsiteAvailabilityInfo>, days: int, left: nat)
    requires days >= 1
    ensures forall i: nat :: left <= i && IsBlockAt(e, days, i) ==> StartTag(e, i) in Blocks(e, days, left)
    decreases |e| - left
  {
    if left + days < |e| {
      BlocksComplete(e, days, left + 1);
      BlocksStep(e, days, left);
      var r := Blocks(e, days, left);
      forall i: nat | left <= i && IsBlockAt(e, days, i) ensures StartTag(e, i) in r {
        if i == left {
          assert r[0] == StartTag(e, left);
        } else {
          assert StartTag(e, i) in Blocks(e, days, left + 1);
        }
      }
    }
  }

  lemma {:induction false} BlocksAscendingFrom(e: seq<CampsiteAvailabilityInfo>, days: int, left: nat)
    requires days >= 1 && SortedBy(e, InfoDate)
    ensures forall k, m :: 0 <= k < m < |Blocks(e, days, left)| ==>
      Blocks(e, days, left)[k].0 <= Blocks(e, days, left)[m].0
    decreases |e| - left
  {
    if left + days < |e| {
      BlocksAscendingFrom(e, days, left + 1);
      BlocksSound(e, days, left + 1);
      BlocksStep(e, days, left);
      var r := Blocks(e, days, left);
      var rest := Blocks(e, days, left + 1);
      if IsBlockAt(e, days, left) {
        assert r == [StartTag(e, left)] + rest;
        forall k, m | 0 <= k < m < |r| ensures r[k].0 <= r[m].0 {
          assert r[m] == rest[m - 1];
          if k == 0 {
            assert ReportedFrom(e, days, left + 1, rest[m - 1]);
            var i: nat :| left + 1 <= i && IsBlockAt(e, days, i) && rest[m - 1] == StartTag(e, i);
            assert InfoDate(e[left]) <= InfoDate(e[i]);
          } else {
            assert r[k] == rest[k - 1];
          }
        }
      }
    }
  }

  /** The tested positions from `left` on whose window is a run, in the order the loop meets them. */
  function BlockStarts(e: seq<CampsiteAvailabilityInfo>, days: int, left: nat): seq<nat>
    requires days >= 1
    decreases |e| - left
  {
    if left + days >= |e| then []
    else (if ConsecutiveFrom(e, left, days) then [left] else []) + BlockStarts(e, days, left + 1)
  }

  /** The start positions are strictly increasing and are exactly the block positions from `left` on. */
  lemma {:induction false} BlockStartsFacts(e: seq<CampsiteAvailabilityInfo>, days: int, left: nat)
    requires days >= 1
    ensures forall k :: 0 <= k < |BlockStarts(e, days, left)| ==>
      left <= BlockStarts(e, days, left)[k] && IsBlockAt(e, days, BlockStarts(e, days, left)[k])
    ensures forall k, m :: 0 <= k < m < |BlockStarts(e, days, left)| ==>
      BlockStarts(e, days, left)[k] < BlockStarts(e, days, left)[m]
    ensures forall i: nat :: left <= i && IsBlockAt(e, days, i) ==> i in BlockStarts(e, days, left)
    decreases |e| - left
  {
    if left + days < |e| {
      BlockStartsFacts(e, days, left + 1);
      var idx := BlockStarts(e, days, left);
      var rest := BlockStarts(e, days, left + 1);
      if ConsecutiveFrom(e, left, days) {
        assert idx == [left] + rest;
        forall k, m | 0 <= k < m < |idx| ensures idx[k] < idx[m] {
          assert idx[m] == rest[m - 1];
          if k > 0 {
            assert idx[k] == rest[k - 1];
          } else {
            assert left + 1 <= rest[m - 1];
          }
        }
        assert forall i: nat :: left + 1 <= i && i in rest ==> i in idx;
      } else {
        assert idx == rest;
      }
    }
  }

  /** The `k`-th reported pair is the start tag of the `k`-th start position. */
  lemma {:induction false} BlocksAsStarts(e: seq<CampsiteAvailabilityInfo>, days: int, left: nat)
    requires days >= 1
    ensures |Blocks(e, days, left)| == |BlockStarts(e, days, left)|
    ensures forall k :: 0 <= k < |BlockStarts(e, days, left)| ==>
      BlockStarts(e, days, left)[k] < |e| && Blocks(e, days, left)[k] == StartTag(e, BlockStarts(e, days, left)[k])
    decreases |e| - left
  {
    if left + days < |e| {
      BlocksAsStarts(e, days, left + 1);
      BlocksStep(e, days, left);
      var idx := BlockStarts(e, days, left);
      var rest := BlockStarts(e, days, left + 1);
      var r := Blocks(e, days, left);
      var tail := Blocks(e, days, left + 1);
      if ConsecutiveFrom(e, left, days) {
        assert idx == [left] + rest && r == [StartTag(e, left)] + tail;
        forall k | 0 <= k < |idx| ensures idx[k] < |e| && r[k] == StartTag(e, idx[k]) {
          if k > 0 {
            assert idx[k] == rest[k - 1] && r[k] == tail[k - 1];
          }
        }
      } else {
        assert idx == rest && r == tail;
      }
    }
  }

  /**
   * With `days >= 2` no date is reported twice: each block's second day is the next day number,
   * and every later block starts at or after it in the date-sorted view.
   */
  lemma BlocksStrictlyAscending(e: seq<CampsiteAvailabilityInfo>, days: int)
    requires days >= 2 && SortedBy(e, InfoDate)
    ensures forall k, m :: 0 <= k < m < |Blocks(e, days, 0)| ==>
      Blocks(e, days, 0)[k].0 < Blocks(e, days, 0)[m].0
  {
    var idx := BlockStarts(e, days, 0);
    var r := Blocks(e, days, 0);
    BlockStartsFacts(e, days, 0);
    BlocksAsStarts(e, days, 0);
    forall k, m | 0 <= k < m < |r| ensures r[k].0 < r[m].0 {
      var i, j := idx[k], idx[m];
      assert IsBlockAt(e, days, i) && i < j;
      assert e[i + 1].date == e[i].date + 1;
      assert InfoDate(e[i + 1]) <= InfoDate(e[j]);
    }
  }

  /** The report is one start tag per block position, in position order, and nothing else. */
  lemma BlocksExactly(e: seq<CampsiteAvailabilityInfo>, days: int)
    requires days >= 1
    ensures var r := Blocks(e, days, 0);
      exists idx: seq<nat> ::
        && |idx| == |r|
        && (forall k, m :: 0 <= k < m < |idx| ==> idx[k] < idx[m])
        && (forall i: nat :: i in idx <==> IsBlockAt(e, days, i))
        && (forall k :: 0 <= k < |r| ==> idx[k] < |e| && r[k] == StartTag(e, idx[k]))
  {
    BlockStartsFacts(e, days, 0);
    BlocksAsStarts(e, days, 0);
    var idx := BlockStarts(e, days, 0);
    assert forall k :: 0 <= k < |idx| ==> idx[k] in idx;
  }

  /**
   * `find_reservable_blocks` in full: a start is reported iff its window of `days` eligible
   * dates is gap- and duplicate-free, only positions with `i + days < len(E)` are tested,
   * each start is tagged with whether it is bookable now, and starts come in date order.
   */
  lemma ReservableBlocksSpec(records: seq<CampsiteAvailabilityInfo>, days: int, includeNyr: bool)
    requires days >= 1
    ensures var e := EligibleRecords(records, includeNyr);
      var r := ReservableBlocks(records, days, includeNyr);
      && |r| <= (if days < |e| then |e| - days else 0)
      && (forall k :: 0 <= k < |r| ==> exists i: nat :: IsBlockAt(e, days, i) && r[k] == (e[i].date, e[i].Available()))
      && (forall i: nat :: IsBlockAt(e, days, i) ==> (e[i].date, e[i].Available()) in r)
      && (forall k, m :: 0 <= k < m < |r| ==> r[k].0 <= r[m].0)
  {
    var e := EligibleRecords(records, includeNyr);
    BlocksLength(e, days, 0);
    BlocksSound(e, days, 0);
    BlocksComplete(e, days, 0);
    SortBySorted(records, InfoDate);
    SelectSorted(SortBy(records, InfoDate), InfoDate, Eligible(includeNyr));
    BlocksAscendingFrom(e, days, 0);
  }

  /**
   * The report of `find_reservable_blocks` is exactly one pair per block position, in position
   * order, so no start is repeated; with `days >= 2` the reported dates are strictly ascending.
   */
  lemma ReservableBlocksExact(records: seq<CampsiteAvailabilityInfo>, days: int, includeNyr: bool)
    requires days >= 1
    ensures var e := EligibleRecords(records, includeNyr);
      var r := ReservableBlocks(records, days, includeNyr);
      exists idx: seq<nat> ::
        && |idx| == |r|
        && (forall k, m :: 0 <= k < m < |idx| ==> idx[k] < idx[m])
        && (forall i: nat :: i in idx <==> IsBlockAt(e, days, i))
        && (forall k :: 0 <= k < |r| ==> idx[k] < |e| && r[k] == StartTag(e, idx[k]))
    ensures days >= 2 ==>
      var r := ReservableBlocks(records, days, includeNyr);
      forall k, m :: 0 <= k < m < |r| ==> r[k].0 < r[m].0
  {
    var e := EligibleRecords(records, includeNyr);
    BlocksExactly(e, days);
    if days >= 2 {
      SortBySorted(records, InfoDate);
      SelectSorted(SortBy(records, InfoDate), InfoDate, Eligible(includeNyr));
      BlocksStrictlyAscending(e, days);
    }
  }

  /** A run of exactly `days` eligible dates, and nothing more, reports no block. */
  lemma ExactRunReportsNothing(records: seq<CampsiteAvailabilityInfo>, days: int, includeNyr: bool)
    requires days >= 1 && |EligibleRecords(records, includeNyr)| == days
    ensures ReservableBlocks(records, days, includeNyr) == []
  {
  }

  /** Without `include_nyr` every reported start is bookable now; with it, a `false` tag marks an NYR start. */
  lemma BlockTags(records: seq<CampsiteAvailabilityInfo>, days: int, includeNyr: bool)
    requires days >= 1
    ensures var e := EligibleRecords(records, includeNyr);
      var r := ReservableBlocks(records, days, includeNyr);
      forall k :: 0 <= k < |r| ==>
        exists i :: (0 <= i < |e| && r[k] == (e[i].date, e[i].Available()) &&
          (r[k].1 || (includeNyr && e[i].NotYetReservable())))
  {
    var e := EligibleRecords(records, includeNyr);
    var r := ReservableBlocks(records, days, includeNyr);
    BlocksSound(e, days, 0);
    SelectMembers(SortBy(records, InfoDate), Eligible(includeNyr));
    forall k | 0 <= k < |r|
      ensures exists i :: (0 <= i < |e| && r[k] == (e[i].date, e[i].Available()) &&
        (r[k].1 || (includeNyr && e[i].NotYetReservable())))
    {
      assert ReportedFrom(e, days, 0, r[k]);
      var i: nat :| IsBlockAt(e, days, i) && r[k] == StartTag(e, i);
      assert e[i] in e;
      assert Eligible(includeNyr)(e[i]);
    }
  }

  /** The block search for one campsite. */
  class CampsiteAvailability {
    const campsiteId: string
    /** The appended records, in insertion order (`_availabilities`). */
    var records: seq<CampsiteAvailabilityInfo>

    constructor (campsiteId: string)
      ensures this.campsiteId == campsiteId && records == []
    {
      this.campsiteId := campsiteId;
      records := [];
    }

    /** The `availabilities` property: the records sorted by date. */
    function Availabilities(): (r: seq<CampsiteAvailabilityInfo>)
      reads this
      ensures SortedBy(r, InfoDate) && multiset(r) == multiset(records)
      ensures forall k :: WithKey(r, InfoDate, k) == WithKey(records, InfoDate, k)
    {
      SortBySorted(records, InfoDate);
      SortByPermutation(records, InfoDate);
      forall k ensures WithKey(SortBy(records, InfoDate), InfoDate, k) == WithKey(records, InfoDate, k) {
        SortByStable(records, InfoDate, k);
      }
      SortBy(records, InfoDate)
    }

    method AddAvailability(date: int, availability: string)
      modifies this
      ensures records == old(records) + [CampsiteAvailabilityInfo(date, availability)]
    {
      records := records + [CampsiteAvailabilityInfo(date, availability)];
    }

    method FindReservableBlocks(days: int, includeNyr: bool) returns (startingDates: seq<(int, bool)>)
      requires days >= 1
      ensures startingDates == ReservableBlocks(records, days, includeNyr)
    {
      var dates := Select(Availabilities(), Eligible(includeNyr));
      assert dates == EligibleRecords(records, includeNyr);
      var dateOrds := Keys(dates, InfoDate);
      var numAvailDates := |dates|;
      var leftp := 0;
      var rightp := days;
      startingDates := [];
      while rightp < numAvailDates
        invariant rightp == leftp + days
        invariant startingDates + Blocks(dates, days, leftp) == Blocks(dates, days, 0)
        decreases numAvailDates - rightp
      {
        var ords := dateOrds[leftp..rightp];
        var allConsecutive := ords == Range(ords[0], ords[|ords| - 1] + 1);
        AccumulateStep(startingDates, dates, days, leftp, ords);
        if allConsecutive {
          startingDates := startingDates + [(dates[leftp].date, dates[leftp].Available())];
        }
        leftp := leftp + 1;
        rightp := rightp + 1;
      }
      assert Blocks(dates, days, leftp) == [];
    }
  }
}
