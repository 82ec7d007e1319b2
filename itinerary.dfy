/** A named itinerary and its numbered list of stops (`Itinerary.ordered_divisions_str`). */
module Itineraries {
  import opened Strings
  import opened Divisions

  datatype Itinerary = Itinerary(name: string, permitId: int, divisions: seq<Division>)

  /** Line `k` (counting from 1) is `"k. " + name` of the k-th stop. */
  function NumberedLine(k: nat, d: Division): string {
    NatToString(k) + ". " + d.name
  }

  function NumberedLines(ds: seq<Division>): (lines: seq<string>)
    ensures |lines| == |ds|
    ensures forall i :: 0 <= i < |ds| ==> lines[i] == NumberedLine(i + 1, ds[i])
  {
    seq(|ds|, i requires 0 <= i < |ds| => NumberedLine(i + 1, ds[i]))
  }

  /** The `ordered_divisions_str` property: the numbered lines joined by newlines. */
  function OrderedDivisionsStr(it: Itinerary): string {
    Join(NumberedLines(it.divisions), '\n')
  }

  /** No stops give the empty string. */
  lemma NoStopsNoText(it: Itinerary)
    requires it.divisions == []
    ensures OrderedDivisionsStr(it) == ""
  {
  }

  lemma NumberedLineNoNewline(k: nat, d: Division)
    requires '\n' !in d.name
    ensures '\n' !in NumberedLine(k, d)
  {
    var n := NatToString(k);
    var line := NumberedLine(k, d);
    forall j | 0 <= j < |line| ensures line[j] != '\n' {
      if j < |n| {
        assert line[j] == n[j] && IsDigit(n[j]);
      } else if j >= |n| + 2 {
        assert line[j] == d.name[j - |n| - 2];
      }
    }
  }

  /**
   * When no stop name holds a newline, splitting on newlines gives back one line per stop,
   * in stop order, line `k` being `"k. " + name`; and the text ends with the last line.
   */
  lemma OrderedDivisionsLines(it: Itinerary)
    requires |it.divisions| >= 1
    requires forall i :: 0 <= i < |it.divisions| ==> '\n' !in it.divisions[i].name
    ensures var lines := Split(OrderedDivisionsStr(it), '\n');
      && |lines| == |it.divisions|
      && (forall i :: 0 <= i < |lines| ==> lines[i] == NatToString(i + 1) + ". " + it.divisions[i].name)
    ensures EndsWith(OrderedDivisionsStr(it), NumberedLine(|it.divisions|, it.divisions[|it.divisions| - 1]))
  {
    var lines := NumberedLines(it.divisions);
    forall i | 0 <= i < |lines| ensures '\n' !in lines[i] {
      NumberedLineNoNewline(i + 1, it.divisions[i]);
    }
    SplitJoin(lines, '\n');
    JoinEndsWithLast(lines, '\n');
  }
}
