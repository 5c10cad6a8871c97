/**
 Room-capacity filter labels of the facility booking system, and the
 conversion from a head count to the label the booking form expects.
 */
module Capacity {

  /** The seven capacity labels, smallest band first. */
  const ValidRoomCapacityFormatted: seq<string> := [
    "LessThan5Pax", "From6To10Pax", "From11To15Pax", "From16To20Pax",
    "From21To50Pax", "From51To100Pax", "MoreThan100Pax"
  ]

  /** Lowest head count of each band after the first, in increasing order. */
  const CapacityBreakpoints: seq<int> := [5, 11, 16, 21, 51, 101]

  /** Independent reference: the band of `raw` is the number of breakpoints it has reached. */
  function CapacityBand(raw: int): (band: nat)
    ensures band <= |CapacityBreakpoints|
  {
    BreakpointsReached(raw, CapacityBreakpoints)
  }

  function BreakpointsReached(raw: int, points: seq<int>): (n: nat)
    ensures n <= |points|
  {
    if points == [] then 0
    else (if points[0] <= raw then 1 else 0) + BreakpointsReached(raw, points[1..])
  }

  /** The if-chain of the scraper, comparison for comparison. */
  function ConvertRoomCapacity(raw: int): (name: string)
    ensures name in ValidRoomCapacityFormatted
    ensures raw <= 10 ==> name == "LessThan5Pax" || name == "From6To10Pax"
    ensures raw > 100 <==> name == "MoreThan100Pax"
  {
    if raw < 5 then "LessThan5Pax"
    else if 5 <= raw <= 10 then "From6To10Pax"
    else if 11 <= raw <= 15 then "From11To15Pax"
    else if 16 <= raw <= 20 then "From16To20Pax"
    else if 21 <= raw <= 50 then "From21To50Pax"
    else if 51 <= raw <= 100 then "From51To100Pax"
    else "MoreThan100Pax"
  }

  /** The scraper's if-chain picks exactly the band the breakpoint count names. */
  lemma ConvertMatchesBand(raw: int)
    ensures ConvertRoomCapacity(raw) == ValidRoomCapacityFormatted[CapacityBand(raw)]
  {
    var b := (if raw < 5 then 0 else if raw < 11 then 1 else if raw < 16 then 2
              else if raw < 21 then 3 else if raw < 51 then 4 else if raw < 101 then 5 else 6);
    assert BreakpointsReached(raw, []) == 0;
    assert BreakpointsReached(raw, [101]) == (if raw < 101 then 0 else 1);
    assert BreakpointsReached(raw, [51, 101]) == (if raw < 51 then 0 else if raw < 101 then 1 else 2);
    assert BreakpointsReached(raw, [21, 51, 101]) == (if raw < 21 then 0 else b - 3);
    assert BreakpointsReached(raw, [16, 21, 51, 101]) == (if raw < 16 then 0 else b - 2);
    assert BreakpointsReached(raw, [11, 16, 21, 51, 101]) == (if raw < 11 then 0 else b - 1);
    assert CapacityBand(raw) == b;
  }

  /** Counting breakpoints is monotone in the head count, for any breakpoint list. */
  lemma {:induction false} BreakpointsReachedMonotone(a: int, b: int, points: seq<int>)
    requires a <= b
    ensures BreakpointsReached(a, points) <= BreakpointsReached(b, points)
  {
    if points != [] {
      BreakpointsReachedMonotone(a, b, points[1..]);
    }
  }

  /** A larger room never gets a smaller capacity label. */
  lemma CapacityMonotone(a: int, b: int)
    requires a <= b
    ensures CapacityBand(a) <= CapacityBand(b)
  {
    BreakpointsReachedMonotone(a, b, CapacityBreakpoints);
  }

  /** The default capacity filter of the scraper (5 people) lands in the second band. */
  lemma DefaultCapacityLabel()
    ensures ConvertRoomCapacity(5) == "From6To10Pax"
  {
  }
}
