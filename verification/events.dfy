/**
 The calendar-grid events of the booking portal: grouping the raw event
 titles into days (`split_bookings_by_day`) and turning one title into a
 schedule slot (the classifier inside `scrape_smu_fbs`).
 */
module Events {
  import opened Outcomes
  import opened Strings

  const Booked := "Booked"
  const NotAvailable := "Not available"
  const AvailableForBooking := "Available for booking"

  /** The suffix of a title the portal marks as unavailable. */
  const NotAvailableMarker := "(not available)"
  /** The first line of a booked event's title. */
  const BookingTimePrefix := "Booking Time:"
  /** The characters `lstrip("Booking Time: ")` removes: a set, not a prefix. */
  const BookingTimeChars: set<char> := set c | c in "Booking Time: "

  /**
   One entry of a room's schedule. `timeslot` is `None` only on a placeholder
   the gap-filler adds after it has run out of expected intervals.
   */
  datatype Slot = Slot(timeslot: Option<string>, available: bool, status: string,
                       details: Option<map<string, string>>)

  // ---------------------------------------------------------------------
  // Grouping events into days
  // ---------------------------------------------------------------------

  /** The two loop variables of `split_bookings_by_day`. */
  datatype DaySplit = DaySplit(days: seq<seq<string>>, current: seq<string>)

  /** One loop iteration: a marked event closes the current group; any other is kept only if a group is open. */
  function SplitStep(st: DaySplit, booking: string): DaySplit {
    if Contains(booking, NotAvailableMarker) then DaySplit(st.days + [st.current + [booking]], [])
    else if st.current != [] then DaySplit(st.days, st.current + [booking])
    else st
  }

  /** The loop state after consuming `bookings` from the left. */
  function SplitScan(bookings: seq<string>): DaySplit
    decreases |bookings|
  {
    if |bookings| == 0 then DaySplit([], [])
    else SplitStep(SplitScan(bookings[..|bookings| - 1]), bookings[|bookings| - 1])
  }

  /** Reference: the events that carry the marker, in input order. */
  function Terminals(bookings: seq<string>): (t: seq<string>)
    ensures |t| <= |bookings|
    ensures forall i :: 0 <= i < |t| ==> Contains(t[i], NotAvailableMarker) && t[i] in bookings
    ensures forall i :: 0 <= i < |bookings| && Contains(bookings[i], NotAvailableMarker) ==> bookings[i] in t
    decreases |bookings|
  {
    if |bookings| == 0 then []
    else
      var init, last := bookings[..|bookings| - 1], bookings[|bookings| - 1];
      assert forall i :: 0 <= i < |init| ==> init[i] == bookings[i];
      Terminals(init) + (if Contains(last, NotAvailableMarker) then [last] else [])
  }

  /** Keeping the marked events commutes with concatenation, so their order is the input order. */
  lemma {:induction false} TerminalsAppend(a: seq<string>, b: seq<string>)
    ensures Terminals(a + b) == Terminals(a) + Terminals(b)
    decreases |b|
  {
    if |b| == 0 {
      assert a + b == a;
    } else {
      var b' := b[..|b| - 1];
      assert (a + b)[..|a + b| - 1] == a + b';
      TerminalsAppend(a, b');
    }
  }

  function Singletons(t: seq<string>): (g: seq<seq<string>>)
    ensures |g| == |t| && forall i :: 0 <= i < |t| ==> g[i] == [t[i]]
  {
    seq(|t|, i requires 0 <= i < |t| => [t[i]])
  }

  /** `split_bookings_by_day`. */
  function SplitBookingsByDay(bookings: seq<string>): (days: seq<seq<string>>)
    ensures |days| <= |bookings|
  {
    SplitScanNeverCarries(bookings);
    SplitScan(bookings).days
  }

  /** The open group is empty after every iteration, and each closed group is one marked event. */
  lemma {:induction false} SplitScanNeverCarries(bookings: seq<string>)
    ensures SplitScan(bookings) == DaySplit(Singletons(Terminals(bookings)), [])
    decreases |bookings|
  {
    if |bookings| > 0 {
      var init := bookings[..|bookings| - 1];
      SplitScanNeverCarries(init);
      var t := Terminals(init);
      var last := bookings[|bookings| - 1];
      if Contains(last, NotAvailableMarker) {
        var t' := t + [last];
        assert Terminals(bookings) == t';
        assert [] + [last] == [last];
        assert forall i :: 0 <= i < |t| ==> Singletons(t')[i] == [t[i]];
        assert Singletons(t) + [[last]] == Singletons(t');
      }
    }
  }

  /** Every group is exactly one marked event; groups follow input order; every other event is dropped. */
  lemma DaysAreMarkedSingletons(bookings: seq<string>)
    ensures SplitBookingsByDay(bookings) == Singletons(Terminals(bookings))
    ensures forall g :: g in SplitBookingsByDay(bookings) ==> |g| == 1
  {
    SplitScanNeverCarries(bookings);
  }

  // ---------------------------------------------------------------------
  // Classifying one event
  // ---------------------------------------------------------------------

  /** The key of a `key: value` line: the text before the first `": "`. */
  function FieldKey(line: string): string {
    SplitOn(line, ": ")[0]
  }

  /** The value of a `key: value` line: the text between the first and second `": "`. */
  function FieldValue(line: string): string
    requires Contains(line, ": ")
  {
    SplitOn(line, ": ")[1]
  }

  /** The dict comprehension over the lines that contain `": "`; a later line overwrites an earlier key. */
  function DetailsOf(lines: seq<string>): map<string, string>
    decreases |lines|
  {
    if |lines| == 0 then map[]
    else
      var prev := DetailsOf(lines[..|lines| - 1]);
      var line := lines[|lines| - 1];
      if Contains(line, ": ") then prev[FieldKey(line) := FieldValue(line)] else prev
  }

  /** The `next(...)` over the lines: the first one starting with the prefix, char-set stripped, or `""`. */
  function BookingTimeslot(lines: seq<string>): string
    decreases |lines|
  {
    if |lines| == 0 then ""
    else if StartsWith(lines[0], BookingTimePrefix) then LStrip(lines[0], BookingTimeChars)
    else BookingTimeslot(lines[1..])
  }

  /** The slot one event title becomes, or `None` when the title has an unrecognised shape. */
  function ClassifyEvent(booking: string): (slot: Option<Slot>)
    ensures slot.Some? <==> StartsWith(booking, BookingTimePrefix) || EndsWith(booking, NotAvailableMarker)
    ensures slot.Some? ==> !slot.value.available && slot.value.timeslot.Some?
    ensures slot.Some? ==> (slot.value.status == Booked <==> StartsWith(booking, BookingTimePrefix))
    ensures slot.Some? && !StartsWith(booking, BookingTimePrefix) ==>
              slot.value.status == NotAvailable && slot.value.details == None
    ensures slot.Some? && slot.value.status == NotAvailable && |slot.value.timeslot.value| > 0 ==>
              slot.value.timeslot.value[0] != '('
  {
    if StartsWith(booking, BookingTimePrefix) then
      var lines := SplitOn(booking, "\n");
      Some(Slot(Some(BookingTimeslot(lines)), false, Booked, Some(DetailsOf(lines))))
    else if EndsWith(booking, NotAvailableMarker) then
      Some(Slot(Some(LStrip(SplitOn(booking, ") (")[0], {'('})), false, NotAvailable, None))
    else
      None
  }

  /** The slots of one day's events, unrecognised titles dropped, order kept. */
  function ClassifyGroup(group: seq<string>): (slots: seq<Slot>)
    ensures |slots| <= |group|
    ensures forall i :: 0 <= i < |slots| ==> slots[i].timeslot.Some? && !slots[i].available
    ensures forall e :: e in group && ClassifyEvent(e).Some? ==> ClassifyEvent(e).value in slots
    decreases |group|
  {
    if |group| == 0 then []
    else
      var init, last := group[..|group| - 1], group[|group| - 1];
      assert forall e :: e in group ==> e in init || e == last;
      ClassifyGroup(init) + (match ClassifyEvent(last) case Some(s) => [s] case None => [])
  }

  /** Classifying a day distributes over concatenation: slots come out in event order. */
  lemma {:induction false} ClassifyGroupAppend(a: seq<string>, b: seq<string>)
    ensures ClassifyGroup(a + b) == ClassifyGroup(a) + ClassifyGroup(b)
    decreases |b|
  {
    if |b| == 0 {
      assert a + b == a;
    } else {
      var b' := b[..|b| - 1];
      assert (a + b)[..|a + b| - 1] == a + b';
      ClassifyGroupAppend(a, b');
    }
  }

  // ---------------------------------------------------------------------
  // What the classifier extracts
  // ---------------------------------------------------------------------

  /** Key and value are the text before the first `": "` and the text between the first and the second. */
  lemma FieldText(line: string)
    requires Contains(line, ": ")
    ensures FindFirst(line, ": ").Some?
    ensures FieldKey(line) == line[..FindFirst(line, ": ").value]
    ensures var rest := line[FindFirst(line, ": ").value + 2..];
            FieldValue(line) == match FindFirst(rest, ": ")
                                case Some(k) => rest[..k]
                                case None => rest
  {
    var i := FindFirst(line, ": ").value;
    SplitFirstPiece(line, ": ", i);
    var rest := line[i + 2..];
    match FindFirst(rest, ": ")
    case Some(k) =>
      SplitFirstPiece(rest, ": ", k);
    case None =>
      SplitWithoutSep(rest, ": ");
  }

  /** Some line of `lines` is a `key: value` line with key `k`. */
  predicate HasKeyLine(lines: seq<string>, k: string) {
    exists j :: 0 <= j < |lines| && Contains(lines[j], ": ") && FieldKey(lines[j]) == k
  }

  lemma HasKeyLineSnoc(init: seq<string>, line: string, k: string)
    ensures HasKeyLine(init + [line], k) <==> HasKeyLine(init, k) || (Contains(line, ": ") && FieldKey(line) == k)
  {
    var lines := init + [line];
    if HasKeyLine(init, k) {
      var j :| 0 <= j < |init| && Contains(init[j], ": ") && FieldKey(init[j]) == k;
      assert lines[j] == init[j];
    }
    if Contains(line, ": ") && FieldKey(line) == k {
      assert lines[|init|] == line;
    }
    if HasKeyLine(lines, k) {
      var j :| 0 <= j < |lines| && Contains(lines[j], ": ") && FieldKey(lines[j]) == k;
      if j < |init| {
        assert init[j] == lines[j];
      }
    }
  }

  /** A key is in the details exactly when some `key: value` line has it. */
  lemma {:induction false} DetailsKeys(lines: seq<string>)
    ensures forall k :: k in DetailsOf(lines) <==> HasKeyLine(lines, k)
    decreases |lines|
  {
    if |lines| > 0 {
      var init, line := lines[..|lines| - 1], lines[|lines| - 1];
      DetailsKeys(init);
      assert lines == init + [line];
      forall k
        ensures k in DetailsOf(lines) <==> HasKeyLine(lines, k)
      {
        HasKeyLineSnoc(init, line, k);
      }
    }
  }

  /** The value stored under a key comes from the last line that has that key. */
  lemma {:induction false} DetailsLastWins(lines: seq<string>, j: nat)
    requires j < |lines| && Contains(lines[j], ": ")
    requires forall j' :: j < j' < |lines| && Contains(lines[j'], ": ") ==> FieldKey(lines[j']) != FieldKey(lines[j])
    ensures FieldKey(lines[j]) in DetailsOf(lines)
    ensures DetailsOf(lines)[FieldKey(lines[j])] == FieldValue(lines[j])
    decreases |lines|
  {
    if j < |lines| - 1 {
      var init := lines[..|lines| - 1];
      assert init[j] == lines[j];
      forall j' | j < j' < |init| && Contains(init[j'], ": ")
        ensures FieldKey(init[j']) != FieldKey(init[j])
      {
        assert init[j'] == lines[j'];
      }
      DetailsLastWins(init, j);
    }
  }

  /** A booked title's timeslot is its first line, char-set stripped; the `""` default never applies. */
  lemma BookedTimeslotFromFirstLine(booking: string)
    requires StartsWith(booking, BookingTimePrefix)
    ensures ClassifyEvent(booking).Some?
    ensures ClassifyEvent(booking).value.timeslot == Some(LStrip(SplitOn(booking, "\n")[0], BookingTimeChars))
  {
    var first := SplitOn(booking, "\n")[0];
    match FindFirst(booking, "\n")
    case None =>
      SplitWithoutSep(booking, "\n");
    case Some(i) =>
      forall j | 0 <= j < |BookingTimePrefix|
        ensures !OccursAt(booking, "\n", j)
      {
        assert booking[j..j + 1] == [BookingTimePrefix[j]];
      }
      SplitFirstPiece(booking, "\n", i);
      assert first[..|BookingTimePrefix|] == booking[..|BookingTimePrefix|];
  }

  /** A line `Booking Time: t` yields `t` when `t` starts outside the stripped character set. */
  lemma BookingTimeLineStrip(t: string)
    requires |t| > 0 && t[0] !in BookingTimeChars
    ensures LStrip("Booking Time: " + t, BookingTimeChars) == t
  {
    var line := "Booking Time: " + t;
    var k := |"Booking Time: "|;
    assert forall j :: 0 <= j < k ==> line[j] in BookingTimeChars;
    assert line[k..] == t;
    LStripStopsAt(line, BookingTimeChars, k);
  }

  /** The character-set strip eats into a value starting with letters of `Booking Time: `. */
  lemma BookingTimeStripQuirk()
    ensures LStrip("Booking Time: TBC", BookingTimeChars) == "C"
  {
    var line := "Booking Time: TBC";
    assert 'C' !in BookingTimeChars;
    assert forall j :: 0 <= j < 16 ==> line[j] in BookingTimeChars;
    LStripStopsAt(line, BookingTimeChars, 16);
    assert line[16..] == "C";
  }

  /** The title the portal shows for an unavailable interval. */
  function NotAvailableTitle(interval: string): (title: string)
    ensures EndsWith(title, NotAvailableMarker) && Contains(title, NotAvailableMarker)
  {
    var title := "(" + interval + ") " + NotAvailableMarker;
    assert OccursAt(title, NotAvailableMarker, |title| - |NotAvailableMarker|);
    title
  }

  /** No `) (` starts inside `(interval` when the interval holds none. */
  lemma NoMarkerInsideHead(interval: string, tail: string, j: nat)
    requires !Contains(interval, ") (") && j <= |interval|
    ensures !OccursAt("(" + interval + ") (" + tail, ") (", j)
  {
    var post := ") (" + tail;
    var title := "(" + interval + ") (" + tail;
    var n := |interval|;
    assert title == "(" + interval + post;
    if 1 <= j && j + 2 <= n {
      NotOccursAround("(", interval, post, ") (", j - 1);
    } else if j == 0 {
      assert title[0] == '(';
      NotOccursByChar(title, ") (", 0, 0);
    } else if j == n {
      assert title[n + 1] == ')';
      NotOccursByChar(title, ") (", n, 1);
    } else {
      assert title[n + 1] == ')';
      NotOccursByChar(title, ") (", j, 2);
    }
  }

  /** Splitting `(interval) (tail` on `) (` stops right after the interval when the interval holds no `) (`. */
  lemma FirstPieceBeforeMarker(interval: string, tail: string)
    requires !Contains(interval, ") (")
    ensures SplitOn("(" + interval + ") (" + tail, ") (")[0] == "(" + interval
  {
    var title := "(" + interval + ") (" + tail;
    var n := |interval|;
    assert title[n + 1..n + 4] == ") (";
    forall j | 0 <= j < n + 1
      ensures !OccursAt(title, ") (", j)
    {
      NoMarkerInsideHead(interval, tail, j);
    }
    FindFirstAt(title, ") (", n + 1);
    SplitFirstPiece(title, ") (", n + 1);
    assert title[..n + 1] == "(" + interval;
  }

  /** A title that ends with the marker but does not start with the booking prefix takes the second branch. */
  lemma ClassifyMarkedTitle(title: string)
    requires !StartsWith(title, BookingTimePrefix) && EndsWith(title, NotAvailableMarker)
    ensures ClassifyEvent(title) == Some(Slot(Some(LStrip(SplitOn(title, ") (")[0], {'('})), false, NotAvailable, None))
  {
  }

  lemma StripOpenParen(interval: string)
    requires |interval| == 0 || interval[0] != '('
    ensures LStrip("(" + interval, {'('}) == interval
  {
    var head := "(" + interval;
    assert forall j :: 0 <= j < 1 ==> head[j] in {'('};
    LStripStopsAt(head, {'('}, 1);
    assert head[1..] == interval;
  }

  lemma NotAvailableTitleShape(interval: string)
    ensures NotAvailableTitle(interval) == "(" + interval + ") (" + "not available)"
  {
  }

  /** The interval comes back out of the first `) (` piece after `(` is stripped. */
  lemma NotAvailableHead(interval: string)
    requires !Contains(interval, ") (")
    requires |interval| == 0 || interval[0] != '('
    ensures LStrip(SplitOn(NotAvailableTitle(interval), ") (")[0], {'('}) == interval
  {
    NotAvailableTitleShape(interval);
    FirstPieceBeforeMarker(interval, "not available)");
    StripOpenParen(interval);
  }

  /** Classifying an unavailable title gives back its interval, when the interval holds no `) (` and starts with no `(`. */
  lemma NotAvailableRoundTrip(interval: string)
    requires !Contains(interval, ") (")
    requires |interval| == 0 || interval[0] != '('
    ensures ClassifyEvent(NotAvailableTitle(interval)) == Some(Slot(Some(interval), false, NotAvailable, None))
  {
    var title := NotAvailableTitle(interval);
    assert title[0] == '(';
    assert title[0] != BookingTimePrefix[0];
    NotAvailableHead(interval);
    ClassifyMarkedTitle(title);
  }
}
