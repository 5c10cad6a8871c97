/**
 `fill_missing_timeslots`: the scraper's gap-filler. It builds the
 de-duplicated timeline of every slot's endpoints, pairs adjacent endpoints
 into expected intervals, and walks the schedule, putting an "Available for
 booking" placeholder in front of every slot that differs from the interval
 expected at its position. As written it does NOT make the schedule
 contiguous: the expected interval is chosen by the slot's position alone.
 */
module GapFill {
  import opened Outcomes
  import opened Strings
  import opened Lists
  import opened Events

  /** Every slot has a timeslot string (the classifier guarantees it; `None.split` would raise). */
  predicate HasTimeslots(schedule: seq<Slot>) {
    forall i :: 0 <= i < |schedule| ==> schedule[i].timeslot.Some?
  }

  /** `chain.from_iterable(slot["timeslot"].split("-") for slot in schedule)`. */
  function Endpoints(schedule: seq<Slot>): seq<string>
    requires HasTimeslots(schedule)
    decreases |schedule|
  {
    if |schedule| == 0 then []
    else
      var n := |schedule| - 1;
      Endpoints(schedule[..n]) + SplitOn(schedule[n].timeslot.value, "-")
  }

  /** The endpoints in order of first appearance (`remove_duplicates_preserve_order`). */
  function Timeline(schedule: seq<Slot>): seq<string>
    requires HasTimeslots(schedule)
  {
    Dedup(Endpoints(schedule))
  }

  /** `[f"{timeline[i]}-{timeline[i+1]}" for i in range(len(timeline)-1)]`; an empty timeline gives no pairs. */
  function Intervals(timeline: seq<string>): (iv: seq<string>)
    ensures |iv| == if |timeline| == 0 then 0 else |timeline| - 1
    ensures forall i :: 0 <= i < |iv| ==> iv[i] == timeline[i] + "-" + timeline[i + 1]
  {
    if |timeline| == 0 then []
    else seq(|timeline| - 1, i requires 0 <= i < |timeline| - 1 => timeline[i] + "-" + timeline[i + 1])
  }

  /** `next(intervals_iter, None)` at the i-th slot. */
  function Expected(intervals: seq<string>, i: nat): Option<string> {
    if i < |intervals| then Some(intervals[i]) else None
  }

  /** The placeholder the filler inserts. */
  function Filler(expected: Option<string>): Slot {
    Slot(expected, true, AvailableForBooking, None)
  }

  predicate IsFiller(s: Slot) {
    s.available && s.status == AvailableForBooking && s.details.None?
  }

  /** What one loop iteration appends for a slot. */
  function Block(slot: Slot, expected: Option<string>): seq<Slot> {
    if slot.timeslot == expected then [slot] else [Filler(expected), slot]
  }

  /** The loop of `fill_missing_timeslots`, for any list of expected intervals. */
  function FillFrom(schedule: seq<Slot>, intervals: seq<string>): seq<Slot>
    decreases |schedule|
  {
    if |schedule| == 0 then []
    else
      var n := |schedule| - 1;
      FillFrom(schedule[..n], intervals) + Block(schedule[n], Expected(intervals, n))
  }

  /** `fill_missing_timeslots`. */
  function FillMissingTimeslots(schedule: seq<Slot>): (out: seq<Slot>)
    requires HasTimeslots(schedule)
    ensures |schedule| <= |out| <= 2 * |schedule|
    ensures forall p :: 0 <= p < |out| ==> out[p] in schedule || IsFiller(out[p])
  {
    var intervals := Intervals(Timeline(schedule));
    FillLayout(schedule, intervals);
    FillElements(schedule, intervals);
    FillFrom(schedule, intervals)
  }

  // ---------------------------------------------------------------------
  // Where every input slot and every placeholder lands
  // ---------------------------------------------------------------------

  /** Slot i differs from the interval expected at position i. */
  predicate Mismatch(schedule: seq<Slot>, intervals: seq<string>, i: nat)
    requires i < |schedule|
  {
    schedule[i].timeslot != Expected(intervals, i)
  }

  /** How many of the first k slots get a placeholder. */
  function Mismatches(schedule: seq<Slot>, intervals: seq<string>, k: nat): (m: nat)
    requires k <= |schedule|
    ensures m <= k
  {
    if k == 0 then 0
    else Mismatches(schedule, intervals, k - 1) + (if Mismatch(schedule, intervals, k - 1) then 1 else 0)
  }

  /** The output index of input slot i: itself, shifted by every placeholder up to and including its own. */
  function Pos(schedule: seq<Slot>, intervals: seq<string>, i: nat): nat
    requires i < |schedule|
  {
    i + Mismatches(schedule, intervals, i + 1)
  }

  /** The count over a prefix does not depend on what follows it. */
  lemma {:induction false} MismatchesPrefix(schedule: seq<Slot>, intervals: seq<string>, m: nat, k: nat)
    requires k <= m <= |schedule|
    ensures Mismatches(schedule[..m], intervals, k) == Mismatches(schedule, intervals, k)
    decreases k
  {
    if k > 0 {
      MismatchesPrefix(schedule, intervals, m, k - 1);
    }
  }

  /** One placeholder per mismatching slot: the output length. */
  lemma {:induction false} FillLength(schedule: seq<Slot>, intervals: seq<string>)
    ensures |FillFrom(schedule, intervals)| == |schedule| + Mismatches(schedule, intervals, |schedule|)
    decreases |schedule|
  {
    if |schedule| > 0 {
      var n := |schedule| - 1;
      FillLength(schedule[..n], intervals);
      MismatchesPrefix(schedule, intervals, n, n);
    }
  }

  /** Filling a prefix of the schedule gives a prefix of the output. */
  lemma {:induction false} FillPrefix(schedule: seq<Slot>, intervals: seq<string>, m: nat)
    requires m <= |schedule|
    ensures |FillFrom(schedule[..m], intervals)| <= |FillFrom(schedule, intervals)|
    ensures FillFrom(schedule[..m], intervals) == FillFrom(schedule, intervals)[..|FillFrom(schedule[..m], intervals)|]
    decreases |schedule| - m
  {
    if m == |schedule| {
      assert schedule[..m] == schedule;
    } else {
      var n := |schedule| - 1;
      FillPrefix(schedule[..n], intervals, m);
      assert schedule[..n][..m] == schedule[..m];
    }
  }

  /** Input slot i sits at `Pos(i)`, with its placeholder right before it when it mismatches. */
  lemma FillSlotAt(schedule: seq<Slot>, intervals: seq<string>, i: nat)
    requires i < |schedule|
    ensures Pos(schedule, intervals, i) < |FillFrom(schedule, intervals)|
    ensures FillFrom(schedule, intervals)[Pos(schedule, intervals, i)] == schedule[i]
    ensures Mismatch(schedule, intervals, i) ==>
              FillFrom(schedule, intervals)[Pos(schedule, intervals, i) - 1] == Filler(Expected(intervals, i))
  {
    var head := schedule[..i + 1];
    FillPrefix(schedule, intervals, i + 1);
    FillLength(head, intervals);
    MismatchesPrefix(schedule, intervals, i + 1, i + 1);
    assert head[..i] == schedule[..i];
    assert FillFrom(head, intervals) == FillFrom(schedule[..i], intervals) + Block(schedule[i], Expected(intervals, i));
  }

  /**
   The output holds every input slot in order, slot i at `Pos(i)`; a
   mismatching slot has the placeholder for its expected interval right
   before it; the length counts one placeholder per mismatch.
   */
  lemma FillLayout(schedule: seq<Slot>, intervals: seq<string>)
    ensures |FillFrom(schedule, intervals)| == |schedule| + Mismatches(schedule, intervals, |schedule|)
    ensures forall i :: 0 <= i < |schedule| ==>
              Pos(schedule, intervals, i) < |FillFrom(schedule, intervals)| &&
              FillFrom(schedule, intervals)[Pos(schedule, intervals, i)] == schedule[i]
    ensures forall i :: 0 <= i < |schedule| && Mismatch(schedule, intervals, i) ==>
              FillFrom(schedule, intervals)[Pos(schedule, intervals, i) - 1] == Filler(Expected(intervals, i))
  {
    FillLength(schedule, intervals);
    forall i | 0 <= i < |schedule|
      ensures Pos(schedule, intervals, i) < |FillFrom(schedule, intervals)|
      ensures FillFrom(schedule, intervals)[Pos(schedule, intervals, i)] == schedule[i]
      ensures Mismatch(schedule, intervals, i) ==>
                FillFrom(schedule, intervals)[Pos(schedule, intervals, i) - 1] == Filler(Expected(intervals, i))
    {
      FillSlotAt(schedule, intervals, i);
    }
  }

  /** Positions strictly increase: the input order is kept. */
  lemma {:induction false} PosIncreasing(schedule: seq<Slot>, intervals: seq<string>, i: nat, j: nat)
    requires i < j < |schedule|
    ensures Pos(schedule, intervals, i) < Pos(schedule, intervals, j)
    decreases j - i
  {
    if i + 1 < j {
      PosIncreasing(schedule, intervals, i, j - 1);
    }
  }

  /** Every element of the output is an input slot or a placeholder. */
  lemma {:induction false} FillElements(schedule: seq<Slot>, intervals: seq<string>)
    ensures forall p :: 0 <= p < |FillFrom(schedule, intervals)| ==>
              FillFrom(schedule, intervals)[p] in schedule || IsFiller(FillFrom(schedule, intervals)[p])
    decreases |schedule|
  {
    if |schedule| > 0 {
      var n := |schedule| - 1;
      FillElements(schedule[..n], intervals);
      assert forall x :: x in schedule[..n] ==> x in schedule;
    }
  }

  /** When every slot is the interval expected at its position, nothing is inserted. */
  lemma {:induction false} FillAllMatch(schedule: seq<Slot>, intervals: seq<string>)
    requires forall i :: 0 <= i < |schedule| ==> schedule[i].timeslot == Expected(intervals, i)
    ensures FillFrom(schedule, intervals) == schedule
    decreases |schedule|
  {
    if |schedule| > 0 {
      var n := |schedule| - 1;
      var init := schedule[..n];
      assert forall i :: 0 <= i < n ==> init[i] == schedule[i];
      FillAllMatch(init, intervals);
      assert FillFrom(schedule, intervals) == init + Block(schedule[n], Expected(intervals, n));
      assert schedule == init + [schedule[n]];
    }
  }

  // ---------------------------------------------------------------------
  // The gap-filler on the timeline it builds
  // ---------------------------------------------------------------------

  /**
   Slot i is compared with the i-th adjacent pair of the de-duplicated
   timeline, or with `None` once the pairs run out; it keeps its place in
   order, and a mismatching slot gets that expectation as a placeholder
   right before it.
   */
  lemma FillMissingLayout(schedule: seq<Slot>, i: nat)
    requires HasTimeslots(schedule) && i < |schedule|
    ensures var tl := Timeline(schedule);
            var intervals := Intervals(tl);
            var expected := if i + 1 < |tl| then Some(tl[i] + "-" + tl[i + 1]) else None;
            var out := FillMissingTimeslots(schedule);
            Expected(intervals, i) == expected &&
            Pos(schedule, intervals, i) < |out| && out[Pos(schedule, intervals, i)] == schedule[i] &&
            (schedule[i].timeslot != expected ==> out[Pos(schedule, intervals, i) - 1] == Filler(expected))
  {
    FillSlotAt(schedule, Intervals(Timeline(schedule)), i);
  }

  lemma EndpointsOfOne(slot: Slot)
    requires slot.timeslot.Some?
    ensures HasTimeslots([slot]) && Endpoints([slot]) == SplitOn(slot.timeslot.value, "-")
  {
    assert [slot][..0] == [];
  }

  /** The timeline of one slot `a-b` is `[a, b]` when neither endpoint holds a dash. */
  lemma TimelineOfOne(slot: Slot, a: string, b: string)
    requires slot.timeslot == Some(a + "-" + b) && '-' !in a && '-' !in b && a != b
    ensures HasTimeslots([slot]) && Timeline([slot]) == [a, b]
  {
    SplitPair(a, b, '-');
    EndpointsOfOne(slot);
    DedupOfDistinct([a, b]);
  }

  /** A single well-formed slot is returned unchanged. */
  lemma FillSingleSlot(slot: Slot, a: string, b: string)
    requires slot.timeslot == Some(a + "-" + b) && '-' !in a && '-' !in b && a != b
    ensures HasTimeslots([slot]) && FillMissingTimeslots([slot]) == [slot]
  {
    TimelineOfOne(slot, a, b);
    FillAllMatch([slot], Intervals([a, b]));
  }

  /** The empty schedule stays empty. */
  lemma FillEmpty()
    ensures FillMissingTimeslots([]) == []
  {
  }

  /** The single unavailable slot `09:00-09:30` comes back unchanged. */
  lemma FillSingleExample()
    ensures var slot := Slot(Some("09:00-09:30"), false, NotAvailable, None);
            FillMissingTimeslots([slot]) == [slot]
  {
    var slot := Slot(Some("09:00-09:30"), false, NotAvailable, None);
    assert "09:00-09:30" == "09:00" + "-" + "09:30";
    FillSingleSlot(slot, "09:00", "09:30");
  }

  /** A slot without a dash has a one-point timeline. */
  lemma TimelineOfUndashed(slot: Slot)
    requires slot.timeslot.Some? && '-' !in slot.timeslot.value
    ensures HasTimeslots([slot]) && Timeline([slot]) == [slot.timeslot.value]
  {
    var t := slot.timeslot.value;
    SplitWithoutChar(t, '-');
    EndpointsOfOne(slot);
    DedupOfDistinct([t]);
  }

  /** ... so it has no expected interval and gets a placeholder whose timeslot is `None`. */
  lemma FillUndashedSlot(slot: Slot)
    requires slot.timeslot.Some? && '-' !in slot.timeslot.value
    ensures HasTimeslots([slot]) && FillMissingTimeslots([slot]) == [Filler(None), slot]
  {
    TimelineOfUndashed(slot);
    assert Intervals([slot.timeslot.value]) == [];
    assert [slot][..0] == [];
  }

  lemma EndpointsSnoc(schedule: seq<Slot>, slot: Slot)
    requires HasTimeslots(schedule) && slot.timeslot.Some?
    ensures HasTimeslots(schedule + [slot])
    ensures Endpoints(schedule + [slot]) == Endpoints(schedule) + SplitOn(slot.timeslot.value, "-")
  {
    assert (schedule + [slot])[..|schedule|] == schedule;
  }

  lemma EndpointsOfThree(s0: Slot, s1: Slot, s2: Slot)
    requires s0.timeslot.Some? && s1.timeslot.Some? && s2.timeslot.Some?
    ensures HasTimeslots([s0, s1, s2])
    ensures Endpoints([s0, s1, s2]) ==
              SplitOn(s0.timeslot.value, "-") + SplitOn(s1.timeslot.value, "-") + SplitOn(s2.timeslot.value, "-")
  {
    EndpointsOfOne(s0);
    EndpointsSnoc([s0], s1);
    assert [s0] + [s1] == [s0, s1];
    EndpointsSnoc([s0, s1], s2);
    assert [s0, s1] + [s2] == [s0, s1, s2];
  }

  /** A dash-joined pair of dash-free endpoints splits back into the pair. */
  lemma SplitDashed(t: string, x: string, y: string)
    requires t == x + "-" + y && '-' !in x && '-' !in y
    ensures SplitOn(t, "-") == [x, y]
  {
    SplitPair(x, y, '-');
  }

  /** The endpoints of slots splitting into `a-b`, `c-d`, `d-e`. */
  lemma EndpointsAfterGap(s0: Slot, s1: Slot, s2: Slot, a: string, b: string, c: string, d: string, e: string)
    requires s0.timeslot.Some? && s1.timeslot.Some? && s2.timeslot.Some?
    requires SplitOn(s0.timeslot.value, "-") == [a, b]
    requires SplitOn(s1.timeslot.value, "-") == [c, d]
    requires SplitOn(s2.timeslot.value, "-") == [d, e]
    ensures HasTimeslots([s0, s1, s2]) && Endpoints([s0, s1, s2]) == [a, b, c, d, d, e]
  {
    EndpointsOfThree(s0, s1, s2);
    assert [a, b] + [c, d] + [d, e] == [a, b, c, d, d, e];
  }

  /** A prefix of a duplicate-free list is duplicate-free. */
  lemma NoDuplicatesPrefix<T>(s: seq<T>, k: nat)
    requires NoDuplicates(s) && k <= |s|
    ensures NoDuplicates(s[..k])
  {
    assert forall i :: 0 <= i < k ==> s[..k][i] == s[i];
  }

  /** Repeating an element already present and then adding a new one keeps only the new one. */
  lemma DedupRepeatThenNew<T>(p: seq<T>, x: T, e: T)
    requires NoDuplicates(p) && x in p && e !in p
    ensures Dedup(p + [x] + [e]) == p + [e]
  {
    DedupOfDistinct(p);
    DedupSnoc(p, x);
    DedupSnoc(p + [x], e);
  }

  /** Removing the one repeat from `a b c d d e` when the five values are distinct. */
  lemma DedupOneRepeat<T>(a: T, b: T, c: T, d: T, e: T)
    requires NoDuplicates([a, b, c, d, e])
    ensures Dedup([a, b, c, d, d, e]) == [a, b, c, d, e]
  {
    var t := [a, b, c, d, e];
    var p := t[..4];
    NoDuplicatesPrefix(t, 4);
    assert p == [a, b, c, d];
    assert forall k :: 0 <= k < 4 ==> p[k] == t[k] != t[4];
    DedupRepeatThenNew(p, d, e);
    assert p + [d] + [e] == [a, b, c, d, d, e];
    assert p + [e] == t;
  }

  /** ... de-duplicated: the repeated `d` goes. */
  lemma TimelineAfterGap(s0: Slot, s1: Slot, s2: Slot, a: string, b: string, c: string, d: string, e: string)
    requires s0.timeslot.Some? && s1.timeslot.Some? && s2.timeslot.Some?
    requires SplitOn(s0.timeslot.value, "-") == [a, b]
    requires SplitOn(s1.timeslot.value, "-") == [c, d]
    requires SplitOn(s2.timeslot.value, "-") == [d, e]
    requires NoDuplicates([a, b, c, d, e])
    ensures HasTimeslots([s0, s1, s2]) && Timeline([s0, s1, s2]) == [a, b, c, d, e]
  {
    EndpointsAfterGap(s0, s1, s2, a, b, c, d, e);
    DedupOneRepeat(a, b, c, d, e);
  }

  /** Filling three slots is the three blocks in a row. */
  lemma FillThree(s0: Slot, s1: Slot, s2: Slot, intervals: seq<string>)
    ensures FillFrom([s0, s1, s2], intervals) ==
              Block(s0, Expected(intervals, 0)) + Block(s1, Expected(intervals, 1)) + Block(s2, Expected(intervals, 2))
  {
    assert [s0][..0] == [];
    assert FillFrom([s0], intervals) == Block(s0, Expected(intervals, 0));
    assert [s0, s1][..1] == [s0];
    assert FillFrom([s0, s1], intervals) == FillFrom([s0], intervals) + Block(s1, Expected(intervals, 1));
    assert [s0, s1, s2][..2] == [s0, s1];
  }

  /** The first slot matches and the next two do not: two placeholders go in. */
  lemma FillThreeShifted(s0: Slot, s1: Slot, s2: Slot, intervals: seq<string>)
    requires s0.timeslot == Expected(intervals, 0)
    requires s1.timeslot != Expected(intervals, 1) && s2.timeslot != Expected(intervals, 2)
    ensures FillFrom([s0, s1, s2], intervals) ==
              [s0, Filler(Expected(intervals, 1)), s1, Filler(Expected(intervals, 2)), s2]
  {
    FillThree(s0, s1, s2, intervals);
  }

  /** The first three expected intervals of a five-point timeline. */
  lemma IntervalsOfFive(a: string, b: string, c: string, d: string, e: string)
    ensures var intervals := Intervals([a, b, c, d, e]);
            Expected(intervals, 0) == Some(a + "-" + b) &&
            Expected(intervals, 1) == Some(b + "-" + c) &&
            Expected(intervals, 2) == Some(c + "-" + d)
  {
  }

  /** Two dash-joined pairs with different first endpoints differ. */
  lemma DashPairsDiffer(x: string, y: string, u: string, v: string)
    requires '-' !in x && '-' !in y && '-' !in u && '-' !in v && x != u
    ensures x + "-" + y != u + "-" + v
  {
    SplitPair(x, y, '-');
    SplitPair(u, v, '-');
  }

  /**
   A gap before the second slot shifts every later expectation: slots
   `a-b`, `c-d`, `d-e` get placeholders `b-c` and `c-d`, so `c-d` appears
   twice and the result is not contiguous.
   */
  lemma FillAfterGap(s0: Slot, s1: Slot, s2: Slot, a: string, b: string, c: string, d: string, e: string)
    requires s0.timeslot == Some(a + "-" + b) && s1.timeslot == Some(c + "-" + d) && s2.timeslot == Some(d + "-" + e)
    requires '-' !in a && '-' !in b && '-' !in c && '-' !in d && '-' !in e
    requires NoDuplicates([a, b, c, d, e])
    ensures HasTimeslots([s0, s1, s2])
    ensures FillMissingTimeslots([s0, s1, s2]) ==
              [s0, Filler(Some(b + "-" + c)), s1, Filler(Some(c + "-" + d)), s2]
  {
    var t := [a, b, c, d, e];
    assert Timeline([s0, s1, s2]) == t by {
      SplitDashed(s0.timeslot.value, a, b);
      SplitDashed(s1.timeslot.value, c, d);
      SplitDashed(s2.timeslot.value, d, e);
      TimelineAfterGap(s0, s1, s2, a, b, c, d, e);
    }
    assert c != b && d != c by {
      assert t[1] != t[2] && t[2] != t[3];
    }
    assert s1.timeslot != Some(b + "-" + c) by { DashPairsDiffer(c, d, b, c); }
    assert s2.timeslot != Some(c + "-" + d) by { DashPairsDiffer(d, e, c, d); }
    IntervalsOfFive(a, b, c, d, e);
    FillThreeShifted(s0, s1, s2, Intervals(t));
  }

  /** The three slots `09:00-09:30`, `10:00-10:30`, `10:30-11:00` come out with `10:00-10:30` twice. */
  lemma FillDuplicatesExample(s0: Slot, s1: Slot, s2: Slot)
    requires s0.timeslot == Some("09:00-09:30") && s1.timeslot == Some("10:00-10:30")
    requires s2.timeslot == Some("10:30-11:00")
    ensures HasTimeslots([s0, s1, s2])
    ensures var out := FillMissingTimeslots([s0, s1, s2]);
            |out| == 5 && out[2] == s1 && out[3] == Filler(Some("10:00-10:30")) && out[2].timeslot == out[3].timeslot
  {
    SampleTimesDistinct();
    FillAfterGap(s0, s1, s2, "09:00", "09:30", "10:00", "10:30", "11:00");
  }

  /** The five half-hour marks of the example are distinct and dash-free. */
  lemma SampleTimesDistinct()
    ensures "09:00-09:30" == "09:00" + "-" + "09:30"
    ensures "10:00-10:30" == "10:00" + "-" + "10:30"
    ensures "10:30-11:00" == "10:30" + "-" + "11:00"
    ensures NoDuplicates(["09:00", "09:30", "10:00", "10:30", "11:00"])
    ensures '-' !in "09:00" && '-' !in "09:30" && '-' !in "10:00" && '-' !in "10:30" && '-' !in "11:00"
  {
    var t := ["09:00", "09:30", "10:00", "10:30", "11:00"];
    assert forall i, j :: 0 <= i < j < 5 ==> t[i][1] != t[j][1] || t[i][3] != t[j][3];
  }
}
