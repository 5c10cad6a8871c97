/**
 The room-assembly step of `scrape_smu_fbs`, as a pure function of the two
 lists the page yields: the row-header texts (room names mixed with
 building headers) and the event titles. Building headers are dropped,
 events are grouped into days, and day `idx` is stored under the `idx`-th
 remaining name; a day without a name raises IndexError.
 */
module Rooms {
  import opened Outcomes
  import opened Strings
  import opened Lists
  import opened Events
  import opened GapFill

  /** Row headers that name a building rather than a room. */
  const ValidBuilding: seq<string> := [
    "Administration Building", "Campus Open Spaces - Events/Activities", "Concourse - Room/Lab",
    "Lee Kong Chian School of Business", "Li Ka Shing Library", "Prinsep Street Residences",
    "School of Accountancy", "School of Computing & Information Systems 1",
    "School of Economics/School of Computing & Information Systems 2",
    "School of Social Sciences/College of Integrative Studies", "SMU Connexion",
    "Yong Pung How School of Law/Kwa Geok Choo Law Library"
  ]

  /** `[el for el in room_names_raw if el not in VALID_BUILDING]`. */
  function FilterRoomNames(raw: seq<string>): (names: seq<string>)
    ensures |names| <= |raw|
    ensures forall i :: 0 <= i < |names| ==> names[i] in raw && names[i] !in ValidBuilding
    ensures forall i :: 0 <= i < |raw| && raw[i] !in ValidBuilding ==> raw[i] in names
    decreases |raw|
  {
    if |raw| == 0 then []
    else
      var init, last := raw[..|raw| - 1], raw[|raw| - 1];
      assert forall i :: 0 <= i < |init| ==> init[i] == raw[i];
      FilterRoomNames(init) + (if last in ValidBuilding then [] else [last])
  }

  /** Filtering commutes with concatenation, so room order is kept. */
  lemma {:induction false} FilterRoomNamesAppend(a: seq<string>, b: seq<string>)
    ensures FilterRoomNames(a + b) == FilterRoomNames(a) + FilterRoomNames(b)
    decreases |b|
  {
    if |b| == 0 {
      assert a + b == a;
    } else {
      var b' := b[..|b| - 1];
      assert (a + b)[..|a + b| - 1] == a + b';
      FilterRoomNamesAppend(a, b');
    }
  }

  /** One day's schedule: its recognised events, gap-filled. */
  function RoomSchedule(group: seq<string>): seq<Slot> {
    FillMissingTimeslots(ClassifyGroup(group))
  }

  /** Each day's schedule, in day order (the body of the loop before the store). */
  function DaySchedules(days: seq<seq<string>>): (schedules: seq<seq<Slot>>)
    ensures |schedules| == |days|
    ensures forall i :: 0 <= i < |days| ==> schedules[i] == RoomSchedule(days[i])
  {
    seq(|days|, i requires 0 <= i < |days| => RoomSchedule(days[i]))
  }

  /**
   The store `room_timeslot_map[room_names[idx]] = ...` over
   `enumerate(bookings_by_day)`: value `idx` goes under `names[idx]`, a later
   day overwrites an earlier one with the same name, and the first `idx`
   past the end of `names` raises IndexError. Computing a day's schedule
   cannot fail, so taking the schedules first changes nothing.
   */
  function AssignRooms<V>(values: seq<V>, names: seq<string>): (r: Result<map<string, V>>)
    ensures r.Success? <==> |values| <= |names|
    ensures r.Failure? ==> r.error == IndexError
    ensures r.Success? ==> forall k :: k in r.value <==> exists i :: 0 <= i < |values| && names[i] == k
    decreases |values|
  {
    if |values| == 0 then Success(map[])
    else
      var n := |values| - 1;
      var prev :- AssignRooms(values[..n], names);
      if n < |names| then Success(prev[names[n] := values[n]])
      else Failure(IndexError)
  }

  /** The room `names[i]` holds value i unless a later index reuses that name (the last write wins). */
  lemma {:induction false} AssignRoomsValue<V>(values: seq<V>, names: seq<string>, i: nat)
    requires |values| <= |names| && i < |values|
    requires forall j :: i < j < |values| ==> names[j] != names[i]
    ensures AssignRooms(values, names).Success?
    ensures AssignRooms(values, names).value[names[i]] == values[i]
    decreases |values|
  {
    var n := |values| - 1;
    if i < n {
      assert values[..n][i] == values[i];
      AssignRoomsValue(values[..n], names, i);
    }
  }

  /** With distinct room names every value lands under its own name. */
  lemma AssignDistinctRooms<V>(values: seq<V>, names: seq<string>)
    requires |values| <= |names| && NoDuplicates(names)
    ensures AssignRooms(values, names).Success?
    ensures forall i :: 0 <= i < |values| ==> AssignRooms(values, names).value[names[i]] == values[i]
  {
    forall i | 0 <= i < |values|
      ensures AssignRooms(values, names).value[names[i]] == values[i]
    {
      AssignRoomsValue(values, names, i);
    }
  }

  /** The availability map the scraper builds from the page's row headers and event titles. */
  function ScrapeAvailability(rowHeaders: seq<string>, titles: seq<string>): (r: Result<map<string, seq<Slot>>>)
    ensures r.Success? <==> |Terminals(titles)| <= |FilterRoomNames(rowHeaders)|
    ensures r.Failure? ==> r.error == IndexError
    ensures r.Success? ==> forall k :: k in r.value ==> k in rowHeaders && k !in ValidBuilding
    ensures r.Success? ==> forall k :: k in r.value <==>
              exists i :: 0 <= i < |Terminals(titles)| && FilterRoomNames(rowHeaders)[i] == k
  {
    DaysAreMarkedSingletons(titles);
    AssignRooms(DaySchedules(SplitBookingsByDay(titles)), FilterRoomNames(rowHeaders))
  }

  /**
   End to end: the `i`-th remaining room name holds the schedule of the `i`-th
   "(not available)" title, unless a later day is stored under the same name.
   */
  lemma ScrapeAvailabilityValue(rowHeaders: seq<string>, titles: seq<string>, i: nat)
    requires ScrapeAvailability(rowHeaders, titles).Success? && i < |Terminals(titles)|
    requires forall j :: i < j < |Terminals(titles)| ==> FilterRoomNames(rowHeaders)[j] != FilterRoomNames(rowHeaders)[i]
    ensures FilterRoomNames(rowHeaders)[i] in ScrapeAvailability(rowHeaders, titles).value
    ensures ScrapeAvailability(rowHeaders, titles).value[FilterRoomNames(rowHeaders)[i]]
              == RoomSchedule([Terminals(titles)[i]])
  {
    var names, schedules := FilterRoomNames(rowHeaders), DaySchedules(SplitBookingsByDay(titles));
    assert ScrapeAvailability(rowHeaders, titles) == AssignRooms(schedules, names);
    assert |schedules| == |Terminals(titles)| && schedules[i] == RoomSchedule([Terminals(titles)[i]]) by {
      DaysAreMarkedSingletons(titles);
    }
    AssignRoomsValue(schedules, names, i);
  }

  /** Every stored value is one of the values that were assigned. */
  lemma {:induction false} AssignRoomsFrom<V>(values: seq<V>, names: seq<string>)
    requires |values| <= |names|
    ensures forall k :: k in AssignRooms(values, names).value ==>
              exists i :: 0 <= i < |values| && AssignRooms(values, names).value[k] == values[i]
    decreases |values|
  {
    if |values| > 0 {
      var n := |values| - 1;
      var prev := AssignRooms(values[..n], names).value;
      AssignRoomsFrom(values[..n], names);
      var r := AssignRooms(values, names).value;
      assert r == prev[names[n] := values[n]];
      forall k | k in r
        ensures exists i :: 0 <= i < |values| && r[k] == values[i]
      {
        if k != names[n] {
          var i :| 0 <= i < n && prev[k] == values[..n][i];
          assert r[k] == values[i];
        }
      }
    }
  }

  /** Because every day is a single event, every room's schedule has at most two slots. */
  lemma ScheduleAtMostTwo(rowHeaders: seq<string>, titles: seq<string>)
    requires ScrapeAvailability(rowHeaders, titles).Success?
    ensures forall k :: k in ScrapeAvailability(rowHeaders, titles).value ==>
              |ScrapeAvailability(rowHeaders, titles).value[k]| <= 2
  {
    var days := SplitBookingsByDay(titles);
    var schedules := DaySchedules(days);
    var r := ScrapeAvailability(rowHeaders, titles).value;
    assert r == AssignRooms(schedules, FilterRoomNames(rowHeaders)).value;
    DaysAreMarkedSingletons(titles);
    AssignRoomsFrom(schedules, FilterRoomNames(rowHeaders));
    forall k | k in r
      ensures |r[k]| <= 2
    {
      var i :| 0 <= i < |schedules| && r[k] == schedules[i];
      assert days[i] in days;
      assert |ClassifyGroup(days[i])| <= 1;
    }
  }

  /** The unavailable slot `09:00-09:30` and the title the portal shows for it. */
  function SampleSlot(): Slot {
    Slot(Some("09:00-09:30"), false, NotAvailable, None)
  }

  lemma SampleTitleClassifies()
    ensures ClassifyEvent(NotAvailableTitle("09:00-09:30")) == Some(SampleSlot())
    ensures Contains(NotAvailableTitle("09:00-09:30"), NotAvailableMarker)
  {
    assert ')' !in "09:00-09:30";
    LacksFirstChar("09:00-09:30", ") (");
    NotAvailableRoundTrip("09:00-09:30");
  }

  /** A lone marked title is one day. */
  lemma DayOfOneTitle(e: string)
    requires Contains(e, NotAvailableMarker)
    ensures SplitBookingsByDay([e]) == [[e]]
  {
    DaysAreMarkedSingletons([e]);
    assert [e][..0] == [];
    assert Terminals([e]) == [e];
  }

  /** A day of one recognised title classifies to that title's slot. */
  lemma ClassifyOneTitle(e: string, slot: Slot)
    requires ClassifyEvent(e) == Some(slot)
    ensures ClassifyGroup([e]) == [slot]
  {
    assert [e][..0] == [];
  }

  /** A lone marked title whose slot the filler keeps is one day with a one-slot schedule. */
  lemma OneTitleDay(e: string, slot: Slot)
    requires ClassifyEvent(e) == Some(slot) && Contains(e, NotAvailableMarker)
    requires slot.timeslot.Some? && FillMissingTimeslots([slot]) == [slot]
    ensures SplitBookingsByDay([e]) == [[e]]
    ensures DaySchedules([[e]]) == [[slot]]
  {
    assert SplitBookingsByDay([e]) == [[e]] by { DayOfOneTitle(e); }
    assert RoomSchedule([e]) == [slot] by { ClassifyOneTitle(e, slot); }
    var ds := DaySchedules([[e]]);
    assert |ds| == 1 && ds[0] == RoomSchedule([e]);
  }

  /** A single unavailable title becomes one day whose schedule is that one slot. */
  lemma SampleDaySchedule()
    ensures SplitBookingsByDay([NotAvailableTitle("09:00-09:30")]) == [[NotAvailableTitle("09:00-09:30")]]
    ensures DaySchedules([[NotAvailableTitle("09:00-09:30")]]) == [[SampleSlot()]]
  {
    SampleTitleClassifies();
    FillSingleExample();
    OneTitleDay(NotAvailableTitle("09:00-09:30"), SampleSlot());
  }

  /** One room and the title `(09:00-09:30) (not available)`: that room gets exactly that slot. */
  lemma OneRoomOneUnavailableSlot(room: string)
    requires room !in ValidBuilding
    ensures ScrapeAvailability([room], [NotAvailableTitle("09:00-09:30")]) == Success(map[room := [SampleSlot()]])
  {
    SampleDaySchedule();
    assert [room][..0] == [];
    assert FilterRoomNames([room]) == [room];
    assert AssignRooms([[SampleSlot()]], [room]) == Success(map[][room := [SampleSlot()]]);
  }

  /** Two rooms but one day: no alignment error, only the first room is filled in. */
  lemma TwoRoomsOneDay(room1: string, room2: string)
    requires room1 !in ValidBuilding && room2 !in ValidBuilding
    ensures ScrapeAvailability([room1, room2], [NotAvailableTitle("09:00-09:30")]) == Success(map[room1 := [SampleSlot()]])
  {
    SampleDaySchedule();
    assert [room1, room2][..1] == [room1] && [room1][..0] == [];
    assert FilterRoomNames([room1, room2]) == [room1, room2];
    assert AssignRooms([[SampleSlot()]], [room1, room2]) == Success(map[][room1 := [SampleSlot()]]);
  }

  /** A day with no room name left after building headers are dropped raises IndexError. */
  lemma BuildingHeaderOnly()
    ensures ScrapeAvailability(["Li Ka Shing Library"], [NotAvailableTitle("09:00-09:30")]) == Failure(IndexError)
  {
    SampleDaySchedule();
    assert ["Li Ka Shing Library"][..0] == [];
    assert "Li Ka Shing Library" in ValidBuilding;
    assert FilterRoomNames(["Li Ka Shing Library"]) == [];
  }
}
