/**
 The portal's half-hour time grid, the list of half-hour intervals, and the
 end-time computation that snaps `start + duration` onto the grid. Times of
 day are counted in integer minutes after midnight.
 */
module TimeGrid {
  import opened Outcomes
  import opened Strings

  /** `VALID_TIME`: `f"{h:02}:{m:02}"` for `h` in `range(24)` and `m` in `(0, 30)`, in that order. */
  const ValidTime: seq<string> :=
    seq(48, i requires 0 <= i < 48 => TwoDigits(i / 2) + ":" + TwoDigits(if i % 2 == 0 then 0 else 30))

  /** `strftime("%H:%M")` of a minute of the day. */
  function FormatClock(minutes: int): string
    requires 0 <= minutes < 1440
  {
    TwoDigits(minutes / 60) + ":" + TwoDigits(minutes % 60)
  }

  /** Two digit strings joined by a colon split back into exactly those two fields. */
  lemma SplitClock(a: string, b: string)
    requires AllDigits(a) && AllDigits(b)
    ensures SplitOn(a + ":" + b, ":") == [a, b]
  {
    assert ':' !in a && ':' !in b;
    SplitPair(a, b, ':');
  }

  /**
   The key `min` sorts the grid by:
   `int(t.split(":")[0]) * 60 + int(t.split(":")[1])`.
   */
  function ClockKey(t: string): Result<int> {
    FieldsKey(SplitOn(t, ":"))
  }

  function FieldsKey(parts: seq<string>): Result<int>
    requires |parts| >= 1
  {
    match ParseInt(parts[0])
    case Failure(e) => Failure(e)
    case Success(h) =>
      if |parts| < 2 then Failure(IndexError)
      else
        match ParseInt(parts[1])
        case Failure(e) => Failure(e)
        case Success(m) => Success(h * 60 + m)
  }

  lemma ClockKeyOfDigits(h: int, m: int)
    requires 0 <= h < 100 && 0 <= m < 100
    ensures ClockKey(TwoDigits(h) + ":" + TwoDigits(m)) == Success(h * 60 + m)
  {
    SplitClock(TwoDigits(h), TwoDigits(m));
    ParseTwoDigits(h);
    ParseTwoDigits(m);
    ClockKeyOfFields(TwoDigits(h) + ":" + TwoDigits(m), TwoDigits(h), TwoDigits(m), h, m);
  }

  lemma ClockKeyOfFields(t: string, a: string, b: string, h: int, m: int)
    requires SplitOn(t, ":") == [a, b] && ParseInt(a) == Success(h) && ParseInt(b) == Success(m)
    ensures ClockKey(t) == Success(h * 60 + m)
  {
    FieldsKeyOfPair(a, b, h, m);
  }

  lemma FieldsKeyOfPair(a: string, b: string, h: int, m: int)
    requires ParseInt(a) == Success(h) && ParseInt(b) == Success(m)
    ensures FieldsKey([a, b]) == Success(h * 60 + m)
  {
    var parts := [a, b];
    assert parts[0] == a && parts[1] == b;
  }

  /** Entry `i` of `VALID_TIME` is the clock time `30 * i` minutes after midnight. */
  lemma ValidTimeFormat()
    ensures |ValidTime| == 48
    ensures forall i :: 0 <= i < 48 ==> ValidTime[i] == FormatClock(30 * i)
  {
    forall i | 0 <= i < 48
      ensures ValidTime[i] == FormatClock(30 * i)
    {
      ValidTimeText(i, i / 2, if i % 2 == 0 then 0 else 30);
    }
  }

  /**
   `VALID_TIME` has 48 entries and entry `i` reads back as `30 * i` minutes
   after midnight, so the list is in strictly increasing minute order.
   */
  lemma ValidTimeKeys()
    ensures |ValidTime| == 48
    ensures forall i :: 0 <= i < 48 ==> ClockKey(ValidTime[i]) == Success(30 * i)
  {
    forall i | 0 <= i < 48
      ensures ClockKey(ValidTime[i]) == Success(30 * i)
    {
      ValidTimeEntry(i);
    }
  }

  lemma ValidTimeEntry(i: int)
    requires 0 <= i < 48
    ensures ClockKey(ValidTime[i]) == Success(30 * i)
  {
    var h := i / 2;
    var m := if i % 2 == 0 then 0 else 30;
    ValidTimeText(i, h, m);
    ClockKeyOfDigits(h, m);
  }

  lemma ValidTimeText(i: int, h: int, m: int)
    requires 0 <= i < 48 && h == i / 2 && m == if i % 2 == 0 then 0 else 30
    ensures ValidTime[i] == TwoDigits(h) + ":" + TwoDigits(m) == FormatClock(30 * i)
    ensures 30 * i == h * 60 + m
  {
    assert (30 * i) / 60 == h && (30 * i) % 60 == m;
  }

  /** The grid runs from `00:00` to `23:30`. */
  lemma ValidTimeEnds()
    ensures |ValidTime| == 48 && ValidTime[0] == "00:00" && ValidTime[47] == "23:30"
  {
    assert TwoDigits(0) == "00" && TwoDigits(23) == "23" && TwoDigits(30) == "30";
    assert ValidTime[0] == "00" + ":" + "00";
    assert ValidTime[47] == "23" + ":" + "30";
  }

  /**
   `generate_30_min_intervals`: step a clock from 00:00 in 30-minute steps
   while it is not past 23:59, emitting `start-end` where the end is shown as
   a time of day, so the last interval wraps to `23:30-00:00`.
   */
  method Generate30MinIntervals() returns (intervals: seq<string>)
    ensures |intervals| == 48
    ensures forall i :: 0 <= i < 48 ==> intervals[i] == ValidTime[i] + "-" + ValidTime[(i + 1) % 48]
    ensures intervals[47] == "23:30-00:00"
  {
    intervals := [];
    var start := 0;
    while start <= 23 * 60 + 59
      invariant 0 <= start <= 1440 && start % 30 == 0
      invariant |intervals| == start / 30
      invariant forall i :: 0 <= i < |intervals| ==> intervals[i] == ValidTime[i] + "-" + ValidTime[(i + 1) % 48]
    {
      IntervalText(start / 30);
      intervals := intervals + [FormatClock(start) + "-" + FormatClock((start + 30) % 1440)];
      start := start + 30;
    }
    ValidTimeEnds();
  }

  lemma IntervalText(i: int)
    requires 0 <= i < 48
    ensures FormatClock(30 * i) + "-" + FormatClock((30 * i + 30) % 1440) == ValidTime[i] + "-" + ValidTime[(i + 1) % 48]
  {
    var j := (i + 1) % 48;
    assert (30 * i + 30) % 1440 == 30 * j;
    ValidTimeText(i, i / 2, if i % 2 == 0 then 0 else 30);
    ValidTimeText(j, j / 2, if j % 2 == 0 then 0 else 30);
  }

  /** The key of every element, in list order. */
  function KeyResults(times: seq<string>): (rs: seq<Result<int>>)
    ensures |rs| == |times| && forall i :: 0 <= i < |times| ==> rs[i] == ClockKey(times[i])
  {
    seq(|times|, i requires 0 <= i < |times| => ClockKey(times[i]))
  }

  /** Every value, or the first failure among them. */
  function AllValues(rs: seq<Result<int>>): (r: Result<seq<int>>)
    ensures r.Success? ==> |r.value| == |rs| && forall i :: 0 <= i < |rs| ==> rs[i] == Success(r.value[i])
    ensures r.Failure? ==> exists i :: 0 <= i < |rs| && rs[i].Failure?
    decreases |rs|
  {
    if |rs| == 0 then Success([])
    else
      var k :- rs[0];
      var ks :- AllValues(rs[1..]);
      Success([k] + ks)
  }

  /** The keys of every element of a list, or the first failure among them. */
  function ClockKeys(times: seq<string>): (r: Result<seq<int>>)
    ensures r.Success? ==> |r.value| == |times|
    ensures r.Success? ==> forall i :: 0 <= i < |times| ==> ClockKey(times[i]) == Success(r.value[i])
    ensures r.Failure? ==> exists i :: 0 <= i < |times| && ClockKey(times[i]).Failure?
  {
    AllValues(KeyResults(times))
  }

  lemma {:induction false} AllValuesSucceed(rs: seq<Result<int>>, values: seq<int>)
    requires |values| == |rs|
    requires forall i :: 0 <= i < |rs| ==> rs[i] == Success(values[i])
    ensures AllValues(rs) == Success(values)
    decreases |rs|
  {
    if |rs| > 0 {
      AllValuesSucceed(rs[1..], values[1..]);
      assert values == [values[0]] + values[1..];
    }
  }

  lemma ClockKeysAllSucceed(times: seq<string>, keys: seq<int>)
    requires |keys| == |times|
    requires forall i :: 0 <= i < |times| ==> ClockKey(times[i]) == Success(keys[i])
    ensures ClockKeys(times) == Success(keys)
  {
    AllValuesSucceed(KeyResults(times), keys);
  }

  function Abs(x: int): int {
    if x < 0 then -x else x
  }

  /**
   Index `k` holds a key closest to `target`, and no earlier index is as
   close: the element a stable `min` by distance returns.
   */
  predicate FirstClosest(keys: seq<int>, target: int, k: int) {
    && 0 <= k < |keys|
    && (forall j :: 0 <= j < |keys| ==> Abs(keys[k] - target) <= Abs(keys[j] - target))
    && (forall j :: 0 <= j < k ==> Abs(keys[k] - target) < Abs(keys[j] - target))
  }

  lemma FirstClosestUnique(keys: seq<int>, target: int, a: int, b: int)
    requires FirstClosest(keys, target, a) && FirstClosest(keys, target, b)
    ensures a == b
  {
    var da := Abs(keys[a] - target);
    var db := Abs(keys[b] - target);
    assert da == db;
  }

  /**
   Python's `min(keys, key=...)` scan: walk left to right and replace the
   running minimum only by a strictly smaller distance.
   */
  function ClosestIndex(keys: seq<int>, target: int): (k: nat)
    requires |keys| > 0
    ensures FirstClosest(keys, target, k)
    decreases |keys|
  {
    if |keys| == 1 then 0
    else
      var last := |keys| - 1;
      var k := ClosestIndex(keys[..last], target);
      if Abs(keys[last] - target) < Abs(keys[k] - target) then last else k
  }

  /** `h, m = map(int, start_time.split(":"))`: exactly two integer fields. */
  function ParseStartTime(startTime: string): Result<(int, int)> {
    StartFields(SplitOn(startTime, ":"))
  }

  function StartFields(parts: seq<string>): Result<(int, int)> {
    if |parts| != 2 then Failure(ValueError)
    else
      var h :- ParseInt(parts[0]);
      var m :- ParseInt(parts[1]);
      Success((h, m))
  }

  /** The un-wrapped end minute `h * 60 + m + duration` the snapping compares against. */
  function EndTotal(start: (int, int), durationMinutes: int): int {
    start.0 * 60 + start.1 + durationMinutes
  }

  /**
   `calculate_end_time(valid_times, start_time, duration_hrs)` with the
   duration already converted to whole minutes. The result is the first
   element of `validTimes` whose clock value is closest to the un-wrapped end
   minute; any failure on the way is re-raised as ValueError.
   */
  function CalculateEndTime(validTimes: seq<string>, startTime: string, durationMinutes: int): (r: Result<string>)
    ensures r.Failure? ==> r.error == ValueError
    ensures r.Success? <==>
      ParseStartTime(startTime).Success? && |validTimes| > 0 && ClockKeys(validTimes).Success?
    ensures r.Success? ==> r.value in validTimes
    ensures r.Success? ==>
      exists k :: 0 <= k < |validTimes| && r.value == validTimes[k] &&
        FirstClosest(ClockKeys(validTimes).value, EndTotal(ParseStartTime(startTime).value, durationMinutes), k)
  {
    match ParseStartTime(startTime)
    case Failure(_) => Failure(ValueError)
    case Success(start) =>
      var total := EndTotal(start, durationMinutes);
      var endH := total / 60;
      var endM := total % 60;
      if |validTimes| == 0 then Failure(ValueError)
      else
        match ClockKeys(validTimes)
        case Failure(_) => Failure(ValueError)
        case Success(keys) =>
          var k := ClosestIndex(keys, endH * 60 + endM);
          assert endH * 60 + endM == total;
          assert FirstClosest(ClockKeys(validTimes).value, EndTotal(ParseStartTime(startTime).value, durationMinutes), k);
          Success(validTimes[k])
  }

  /** The clock value of every `VALID_TIME` entry. */
  function GridKeys(): (keys: seq<int>)
    ensures |keys| == 48 && forall i :: 0 <= i < 48 ==> keys[i] == 30 * i
  {
    seq(48, i => 30 * i)
  }

  /**
   The grid entry the snap lands on: the nearest half hour, rounding a
   quarter past down, clamped to `00:00` below and `23:30` above.
   */
  function SnapIndex(total: int): (i: nat)
    ensures i < 48
  {
    if total <= 0 then 0 else if total >= 1410 then 47 else (total + 14) / 30
  }

  lemma SnapIndexIsFirstClosest(total: int)
    ensures FirstClosest(GridKeys(), total, SnapIndex(total))
  {
    var keys := GridKeys();
    var e := SnapIndex(total);
    if 0 < total < 1410 {
      assert 30 * e - 14 <= total <= 30 * e + 15;
    }
  }

  /**
   On the real grid, `calculate_end_time` returns the entry for
   `SnapIndex(h * 60 + m + duration)` whenever the start time parses.
   */
  lemma EndTimeOnValidTime(startTime: string, durationMinutes: int)
    requires ParseStartTime(startTime).Success?
    ensures CalculateEndTime(ValidTime, startTime, durationMinutes) ==
      Success(ValidTime[SnapIndex(EndTotal(ParseStartTime(startTime).value, durationMinutes))])
  {
    ValidTimeKeys();
    ClockKeysAllSucceed(ValidTime, GridKeys());
    var total := EndTotal(ParseStartTime(startTime).value, durationMinutes);
    SnapIndexIsFirstClosest(total);
    var r := CalculateEndTime(ValidTime, startTime, durationMinutes);
    var k :| 0 <= k < 48 && r.value == ValidTime[k] && FirstClosest(GridKeys(), total, k);
    FirstClosestUnique(GridKeys(), total, k, SnapIndex(total));
  }

  /** The entry `SnapIndex` picks, read as a clock time. */
  lemma SnapEntry(total: int)
    ensures 0 <= total <= 1410 && total % 30 == 0 ==> ValidTime[SnapIndex(total)] == FormatClock(total)
    ensures total >= 1410 ==> ValidTime[SnapIndex(total)] == "23:30"
    ensures total <= 0 ==> ValidTime[SnapIndex(total)] == "00:00"
  {
    ValidTimeFormat();
    ValidTimeEnds();
    if 0 < total <= 1410 && total % 30 == 0 {
      assert SnapIndex(total) == total / 30;
      assert 30 * (total / 30) == total;
    }
  }

  /**
   A grid-aligned end in `[0, 1410]` is returned exactly; anything at or past
   `23:30` is clamped to `23:30` (no wrap past midnight); anything at or
   before midnight gives `00:00`.
   */
  lemma EndTimeClamps(startTime: string, durationMinutes: int)
    requires ParseStartTime(startTime).Success?
    ensures var total := EndTotal(ParseStartTime(startTime).value, durationMinutes);
      && (0 <= total <= 1410 && total % 30 == 0 ==>
            CalculateEndTime(ValidTime, startTime, durationMinutes) == Success(FormatClock(total)))
      && (total >= 1410 ==> CalculateEndTime(ValidTime, startTime, durationMinutes) == Success("23:30"))
      && (total <= 0 ==> CalculateEndTime(ValidTime, startTime, durationMinutes) == Success("00:00"))
  {
    EndTimeOnValidTime(startTime, durationMinutes);
    SnapEntry(EndTotal(ParseStartTime(startTime).value, durationMinutes));
  }

  lemma StartTimeOfDigits(h: int, m: int)
    requires 0 <= h < 100 && 0 <= m < 100
    ensures ParseStartTime(TwoDigits(h) + ":" + TwoDigits(m)) == Success((h, m))
  {
    SplitClock(TwoDigits(h), TwoDigits(m));
    ParseTwoDigits(h);
    ParseTwoDigits(m);
    StartFieldsOfPair(TwoDigits(h), TwoDigits(m), h, m);
  }

  lemma StartFieldsOfPair(a: string, b: string, h: int, m: int)
    requires ParseInt(a) == Success(h) && ParseInt(b) == Success(m)
    ensures StartFields([a, b]) == Success((h, m))
  {
  }

  /** Worked example: 10:00 plus 3 hours ends at 13:00. */
  lemma EndTimeExampleThreeHours()
    ensures CalculateEndTime(ValidTime, "10:00", 180) == Success("13:00")
  {
    assert "10:00" == TwoDigits(10) + ":" + TwoDigits(0);
    assert "13:00" == TwoDigits(13) + ":" + TwoDigits(0);
    StartTimeOfDigits(10, 0);
    EndTimeOnValidTime("10:00", 180);
    SnapEntry(780);
  }

  /** Worked example: 14:00 plus 2.5 hours ends at 16:30. */
  lemma EndTimeExampleTwoAndAHalfHours()
    ensures CalculateEndTime(ValidTime, "14:00", 150) == Success("16:30")
  {
    assert "14:00" == TwoDigits(14) + ":" + TwoDigits(0);
    assert "16:30" == TwoDigits(16) + ":" + TwoDigits(30);
    StartTimeOfDigits(14, 0);
    EndTimeOnValidTime("14:00", 150);
    SnapEntry(990);
  }

  /** Worked example: a total of 10:15 is equally far from 10:00 and 10:30; the earlier entry wins. */
  lemma EndTimeExampleTie()
    ensures CalculateEndTime(ValidTime, "10:00", 15) == Success("10:00")
  {
    assert "10:00" == TwoDigits(10) + ":" + TwoDigits(0);
    StartTimeOfDigits(10, 0);
    EndTimeOnValidTime("10:00", 15);
    assert SnapIndex(615) == 20;
    SnapEntry(600);
  }

  /** A start time without exactly one colon, or an empty grid, raises ValueError. */
  lemma EndTimeErrors(validTimes: seq<string>, startTime: string, durationMinutes: int)
    ensures |SplitOn(startTime, ":")| != 2 ==>
      CalculateEndTime(validTimes, startTime, durationMinutes) == Failure(ValueError)
    ensures validTimes == [] ==>
      CalculateEndTime(validTimes, startTime, durationMinutes) == Failure(ValueError)
  {
  }
}
