# sagasu-2 availability core, in Dafny

sagasu-2 logs into SMU's facility booking system (FBS) with a headless browser. It filters the room-availability grid and turns what the grid shows into a per-room list of half-hour slots, which it prints and writes to its booking log (the dictionary it returns carries an empty `results`; see "## Left out"). This project models the pure logic around that browser session:

- **Time grid and end time** (`TimeGrid`). This covers:
  - the `VALID_TIME` half-hour grid;
  - `generate_30_min_intervals`;
  - `calculate_end_time`, which adds a duration to an `HH:MM` start and snaps the result onto the grid with a stable first-minimum scan.
- **Capacity band** (`Capacity`). This covers `VALID_ROOM_CAPACITY_FORMATTED` and `convert_room_capacity`.
- **Grouping and classification** (`Events`). This covers two things:
  - `split_bookings_by_day`;
  - the classifier inside `scrape_smu_fbs`. A `Booking Time:` title becomes a Booked slot with a details map. A `(not available)` title becomes a Not-available slot. Anything else is dropped.
- **Gap filling** (`GapFill`). This covers `fill_missing_timeslots`, which inserts "Available for booking" placeholders.
- **Room assembly** (`Rooms`). Building headers are dropped from the row headers. Day `idx` is stored under the `idx`-th remaining room name. A day without a name raises IndexError.
- **Utilities**. `remove_duplicates_preserve_order` exists in three identical copies, `split_message` in two, and there is also `validate_credentials`.
  - Each copy is a member of `CoreHelpers`, `Helper` or `SrcHelper`.
  - Every copy is the one shared definition in `Lists` or `Chunking`.
  - `Lists.DedupWithSeenSet` is the Python comprehension with its `seen` set, proved equal to that shared definition.

Supporting modules:
- `Outcomes` holds `Option`, `Result` and the two exception kinds, `ValueError` and `IndexError`.
- `Strings` holds Python's `str` operations with Python's semantics:
  - `split` on a non-empty separator;
  - `in`;
  - `lstrip`, which strips a character set;
  - `int()` on a decimal literal, skipping the whitespace `int()` skips around it: tab, line feed, vertical tab, form feed, carriage return, space and the non-ASCII Unicode spaces, but not U+001C to U+001F.

The code's behaviour is modelled as written, including its quirks. Each quirk is stated as a lemma:

- **One event per day.** `split_bookings_by_day` only ever emits one-event days. `current_day` is always empty when a non-terminal event arrives, so that event is dropped (`Events.DaysAreMarkedSingletons`).
- **Gaps are not closed.** `fill_missing_timeslots` compares slot `i` with the `i`-th adjacent pair of the timeline, whatever came before. After a gap the missing interval is inserted, but every later slot is compared with an expectation one pair behind, so an interval already present is inserted again (`GapFill.FillAfterGap`, `GapFill.FillDuplicatesExample`).
- **Clamping.** `calculate_end_time` snaps the un-wrapped total, so it clamps at `23:30` instead of wrapping past midnight. Ties go to the earlier grid entry.
- **Character-set strip.** `lstrip("Booking Time: ")` strips a character set, so `Booking Time: TBC` yields `C` (`Events.BookingTimeStripQuirk`).
- **IndexError.** Having more day groups than room names raises IndexError (`Rooms.BuildingHeaderOnly`).

Three further facts about the code, each proved:

- **No contiguity.** `fill_missing_timeslots` does not produce a contiguous schedule once a gap is followed by further slots. A lone gap (`a-b`, `c-d`) is closed, giving `a-b`, `b-c`, `c-d`. With a third slot `d-e` the output is `a-b`, `b-c`, `c-d`, `c-d`, `d-e`: the missing `b-c` is inserted, but `d-e` is compared with the pair `c-d`, so `c-d` is inserted a second time (`GapFill.FillAfterGap`).
- **No alignment check.** Nothing compares the number of day groups with the number of room names:
  - too few rooms is the IndexError of `room_names[idx]` (`Rooms.BuildingHeaderOnly`);
  - extra rooms are accepted silently and stay out of the map: the keys are exactly the first `len(days)` room names (`Rooms.ScrapeAvailability`, `Rooms.TwoRoomsOneDay`).
- **Substring e-mail test.** `validate_credentials` tests whether `@smu.edu.sg` occurs anywhere in the address, not whether the address ends with it (`CoreHelpers.DomainNeedNotBeSuffix`).

## Model

| member | source | states |
|---|---|---|
| TimeGrid.ValidTimeKeys | core/scraper.py:14 | `VALID_TIME` has 48 entries; entry `i` reads back through `int(t.split(":")[0])*60 + int(t.split(":")[1])` as `30*i` minutes, so the grid is strictly increasing from 00:00 |
| TimeGrid.ValidTimeFormat | core/scraper.py:14 | entry `i` is the `HH:MM` text of minute `30*i` |
| TimeGrid.ValidTimeEnds | core/scraper.py:14 | the grid starts at `00:00` and ends at `23:30` |
| TimeGrid.Generate30MinIntervals | core/scraper.py:48-57 | exactly 48 intervals; interval `i` runs from grid entry `i` to grid entry `(i+1) mod 48`, so the last one is `23:30-00:00` |
| TimeGrid.ClockKeyOfDigits | core/scraper.py:105-107 | the sort key of a two-digit `HH:MM` string is `HH*60+MM` |
| TimeGrid.StartTimeOfDigits | core/scraper.py:101 | unpacking `map(int, "HH:MM".split(":"))` gives back the two numbers |
| Strings.ParseTwoDigits | core/scraper.py:101 | `int()` of a zero-padded two-digit rendering is the number itself |
| Strings.TrimRemovesOnlySpace | core/scraper.py:101 | `int()` drops only the whitespace it skips, and only from the two ends: the parsed text is a middle slice with that whitespace on both sides |
| Strings.ParseIntSkipsNoBreakSpace | core/scraper.py:101 | `int()` skips a non-ASCII space such as U+00A0 around the digits |
| Strings.ParseIntRejectsSeparator | core/scraper.py:101 | `int()` does not skip U+001C, although `str.isspace` accepts it, so the text raises ValueError |
| TimeGrid.ClockKeys | core/scraper.py:105-107 | all keys of a list succeed together, each the key of its element, or some element's key fails |
| TimeGrid.ClosestIndex | core/scraper.py:105-108 | the stable `min` scan returns an index of minimal distance with every earlier index strictly farther |
| TimeGrid.FirstClosestUnique | core/scraper.py:105-108 | that first-minimum index is unique, so the scan's answer is determined |
| TimeGrid.CalculateEndTime | core/scraper.py:98-110 | every failure is ValueError; success exactly when the start parses into two integers, the list is non-empty and every entry's key parses; the result is the first list entry closest to the un-wrapped total |
| TimeGrid.SnapIndexIsFirstClosest | core/scraper.py:102-108 | on the 48-entry grid the first closest entry is the nearest half hour, rounding a quarter past down, clamped to 00:00 and 23:30 |
| TimeGrid.EndTimeOnValidTime | core/scraper.py:98-110 | with `VALID_TIME` and a parseable start, the result is the grid entry at that snapped index |
| TimeGrid.EndTimeClamps | core/scraper.py:102-108 | a grid-aligned total in [0, 1410] comes back as itself; a total at or past 23:30 gives `23:30` (no wrap); a total at or before midnight gives `00:00` |
| TimeGrid.EndTimeExampleThreeHours | core/scraper.py:98-110 | `10:00` plus 180 minutes gives `13:00` |
| TimeGrid.EndTimeExampleTwoAndAHalfHours | core/scraper.py:98-110 | `14:00` plus 150 minutes gives `16:30` |
| TimeGrid.EndTimeExampleTie | core/scraper.py:105-108 | a total of 10:15 is equally far from `10:00` and `10:30`; the earlier `10:00` is returned |
| TimeGrid.EndTimeErrors | core/scraper.py:100-110 | a start that does not split into two fields, or an empty grid, raises ValueError |
| Capacity.ConvertRoomCapacity | core/scraper.py:81-96 | total over all integers; always one of the seven `VALID_ROOM_CAPACITY_FORMATTED` labels; up to 10 people gives one of the two smallest bands; more than 100 exactly when `MoreThan100Pax` |
| Capacity.ConvertMatchesBand | core/scraper.py:15-18 | the if-chain's label is the label at position "number of breakpoints 5, 11, 16, 21, 51, 101 reached" in `VALID_ROOM_CAPACITY_FORMATTED` |
| Capacity.CapacityMonotone | core/scraper.py:81-96 | a larger head count never gets a smaller band |
| Capacity.DefaultCapacityLabel | core/scraper.py:130 | the default capacity of 5 maps to `From6To10Pax` |
| Events.SplitBookingsByDay | core/scraper.py:112-123 | there are never more days than events |
| Events.SplitScanNeverCarries | core/scraper.py:114-122 | after every iteration `current_day` is empty and the closed days are the marked events seen so far, one per day |
| Events.DaysAreMarkedSingletons | core/scraper.py:112-123 | the days are exactly the events containing `(not available)`, each alone in its own group, in input order; every other event is dropped |
| Events.ClassifyEvent | core/scraper.py:244-263 | a title yields a slot exactly when it starts with `Booking Time:` or ends with `(not available)`; every slot is unavailable and has a timeslot; Booked exactly for the first shape, otherwise `Not available` with no details and a timeslot not starting with `(` |
| Events.ClassifyGroup | core/scraper.py:243-263 | a day's slots are no more than its events, all unavailable with a timeslot, and every recognised event's slot is among them |
| Events.ClassifyGroupAppend | core/scraper.py:244-263 | classification goes event by event, so slots come out in event order |
| Events.FieldText | core/scraper.py:246 | a detail's key is the text before the first `": "` and its value the text between the first and second `": "` (or to the end) |
| Events.DetailsKeys | core/scraper.py:246 | a key is in the details exactly when some line containing `": "` has that key |
| Events.DetailsLastWins | core/scraper.py:246 | the value stored under a key comes from the last line with that key |
| Events.BookedTimeslotFromFirstLine | core/scraper.py:245-247 | a booked title's timeslot is its first line, character-set stripped; the `""` default of `next` is never used |
| Events.BookingTimeLineStrip | core/scraper.py:247 | `Booking Time: t` gives `t` when `t` starts outside the stripped set |
| Events.BookingTimeStripQuirk | core/scraper.py:247 | the strip is by character set: `Booking Time: TBC` gives `C` |
| Events.NotAvailableHead | core/scraper.py:255 | the first `) (` piece of `(interval) (not available)`, with leading `(` stripped, is the interval |
| Events.NotAvailableRoundTrip | core/scraper.py:254-261 | classifying `(interval) (not available)` gives back a Not-available slot for exactly that interval with no details, if the interval holds no `) (` and does not start with `(` |
| GapFill.FillMissingTimeslots | core/scraper.py:59-79 | the output has between n and 2n slots; each is an input slot or an "Available for booking" placeholder without details |
| GapFill.FillMissingLayout | core/scraper.py:59-79 | slot `i` is compared with the `i`-th adjacent pair of the de-duplicated endpoint timeline, or with None once the pairs run out; it is kept in the output, and on a mismatch the placeholder for that expectation sits right before it |
| GapFill.FillLayout | core/scraper.py:65-78 | the output length is n plus the number of mismatching slots; every input slot sits at its computed position, with its placeholder right before it on a mismatch |
| GapFill.PosIncreasing | core/scraper.py:67-78 | the input slots keep their order in the output |
| GapFill.FillElements | core/scraper.py:67-78 | every output element is an input slot or a placeholder |
| GapFill.FillAllMatch | core/scraper.py:66-70 | when every slot equals the interval expected at its position, nothing is inserted |
| GapFill.FillEmpty | core/scraper.py:59-79 | the empty schedule stays empty |
| GapFill.FillSingleSlot | core/scraper.py:59-79 | one slot `a-b` with dash-free, distinct endpoints comes back unchanged |
| GapFill.FillSingleExample | core/scraper.py:59-79 | the single slot `09:00-09:30` comes back unchanged |
| GapFill.FillUndashedSlot | core/scraper.py:64-77 | a slot without a dash has no expected interval and gets a placeholder whose timeslot is None |
| GapFill.TimelineAfterGap | core/scraper.py:61-63 | the endpoints of `a-b`, `c-d`, `d-e` de-duplicate to `a b c d e` |
| GapFill.FillAfterGap | core/scraper.py:59-79 | slots `a-b`, `c-d`, `d-e` become `a-b`, placeholder `b-c`, `c-d`, placeholder `c-d`, `d-e`: not contiguous, and `c-d` appears twice |
| GapFill.FillDuplicatesExample | core/scraper.py:59-79 | `09:00-09:30`, `10:00-10:30`, `10:30-11:00` yields `10:00-10:30` twice in a row |
| Rooms.FilterRoomNames | core/scraper.py:234 | the kept names are row headers that are not building names, and every non-building header is kept |
| Rooms.FilterRoomNamesAppend | core/scraper.py:234 | filtering goes header by header, so room order is kept |
| Rooms.AssignRooms | core/scraper.py:242-264 | the store succeeds exactly when there are no more days than names; otherwise IndexError; the keys are exactly the first "number of days" names |
| Rooms.AssignRoomsValue | core/scraper.py:264 | a room holds day `i`'s value unless a later day reuses its name (last write wins) |
| Rooms.AssignDistinctRooms | core/scraper.py:264 | with distinct room names, day `i` lands under `names[i]` |
| Rooms.AssignRoomsFrom | core/scraper.py:264 | every stored value is one of the day values |
| Rooms.ScrapeAvailability | core/scraper.py:234-264 | succeeds exactly when the marked events are no more than the non-building headers, otherwise IndexError; every key is a row header and not a building; the keys are exactly the first `len(days)` non-building names |
| Rooms.ScrapeAvailabilityValue | core/scraper.py:234-264 | the `i`-th non-building room name holds the gap-filled schedule of the `i`-th "(not available)" title, unless a later day reuses that name |
| Rooms.ScheduleAtMostTwo | core/scraper.py:239-264 | because every day is one event, every room's schedule has at most two slots |
| Rooms.OneRoomOneUnavailableSlot | core/scraper.py:234-264 | one room and the title `(09:00-09:30) (not available)` give that room exactly that slot |
| Rooms.TwoRoomsOneDay | core/scraper.py:234-264 | two rooms and one day give no error; only the first room is filled in |
| Rooms.BuildingHeaderOnly | core/scraper.py:234-264 | a day with no room name left after building headers are dropped raises IndexError |
| Strings.LStrip | core/scraper.py:255 | `lstrip(chars)` removes the longest prefix made only of characters in the set; what remains does not start with one |
| Strings.SplitOnJoin | core/scraper.py:62 | `split(sep)` pieces joined with the separator give back the string, and no piece holds the separator |
| Lists.DedupFirstOccurrenceOrder | core/core_helpers.py:24-27 | the output lists elements in increasing order of their first occurrence in the input |
| Lists.DedupOfDistinct | core/core_helpers.py:24-27 | a duplicate-free list is returned unchanged |
| Lists.DedupIdempotent | core/core_helpers.py:24-27 | de-duplicating twice equals de-duplicating once |
| Lists.DedupWithSeenSet | core/core_helpers.py:24-27 | the one-pass comprehension with a `seen` set keeps exactly the first occurrence of each element |
| CoreHelpers.RemoveDuplicatesPreserveOrder | core/core_helpers.py:24-27 | no duplicates; same membership as the input; first-occurrence order; never longer; a duplicate-free input comes back unchanged |
| CoreHelpers.RemoveDuplicatesIdempotent | core/core_helpers.py:24-27 | applying it to its own output changes nothing |
| Chunking.ChunksConcat | core/core_helpers.py:75-77 | the chunks concatenate back to the text |
| Chunking.ChunksCount | core/core_helpers.py:75-77 | the number of chunks is ceil(len / max_length) |
| Chunking.ChunksAreSlices | core/core_helpers.py:77 | chunk `k` is `text[i:i+max_length]` for the `k`-th value `i` of `range(0, len(text), max_length)` |
| Chunking.SplitMessage | core/core_helpers.py:75-77 | a zero limit raises ValueError; a negative one gives no chunks; otherwise the chunks are non-empty, at most the limit, all but the last exactly the limit, concatenate to the text, ceil(len/limit) of them, and none for empty text |
| CoreHelpers.SplitMessage | core/core_helpers.py:75-77 | a zero limit raises ValueError; otherwise the chunks are non-empty, at most the limit, all but the last exactly the limit, concatenate to the text (positive limit), none for empty text; default limit 4096 |
| CoreHelpers.ValidateCredentials | core/core_helpers.py:59-61 | true exactly when `@smu.edu.sg` occurs somewhere in the e-mail and the password has at least 8 characters |
| CoreHelpers.DomainNeedNotBeSuffix | core/core_helpers.py:61 | an address that merely contains the domain, followed by anything, passes with a long enough password |
| CoreHelpers.ShortPasswordRejected | core/core_helpers.py:61 | a password of at most 7 characters is always rejected |
| Helper.RemoveDuplicatesPreserveOrder | core/helper.py:17-20 | no duplicates; same membership; first-occurrence order; never longer; duplicate-free input unchanged |
| Helper.RemoveDuplicatesIdempotent | core/helper.py:17-20 | applying it to its own output changes nothing |
| Helper.SplitMessage | core/helper.py:49-51 | chunks concatenate to the text, each non-empty and at most the limit, all but the last exactly the limit, none for empty text |
| Helper.DefaultSplitFitsLimit | core/helper.py:49-55 | with the default limit the call never fails and every chunk has at most 4096 characters |
| SrcHelper.RemoveDuplicatesPreserveOrder | src/helper.py:10-13 | no duplicates; same membership; first-occurrence order; never longer; duplicate-free input unchanged |
| SrcHelper.RemoveDuplicatesIdempotent | src/helper.py:10-13 | applying it to its own output changes nothing |

## Left out

- The browser session of `scrape_smu_fbs` (core/scraper.py:134-233 and 266-293) is left out because it is browser and file I/O. That covers the credential read, date formatting, page loads with retries, login, date stepping, filter clicks and the JSON log. The row-header texts and event titles it reads are parameters of `Rooms.ScrapeAvailability`.
- The room map that `Rooms.ScrapeAvailability` models is only printed and written to the booking log (core/scraper.py:266-284). `scrape_smu_fbs` returns `{"results": results, "errors": errors}` (core/scraper.py:286-289), and `results`, set to `{}` at core/scraper.py:133, is never filled in. So on success the caller gets empty `results`; core/scraper_service.py:12-18 passes that dictionary on unchanged as `data`. Neither the print, the log file nor the returned dictionary is modelled.
- The exception handler around the scrape is not modelled. The IndexError of `room_names[idx]` is returned as `Failure(IndexError)`, and how the surrounding handler reports it is not modelled.
- Event titles are strings. `get_attribute("title")` can return None, which would make the membership test raise TypeError. That case is not modelled.
- `TimeGrid.CalculateEndTime` takes the duration as whole minutes, i.e. the value of `int(duration_hrs * 60)`. Floating-point hours are not modelled.
- `Strings.ParseInt` skips the whitespace `int()` skips (`Strings.IsSpace`) and accepts an optional sign and ASCII digits. Python's `int()` also accepts underscores between digits and non-ASCII decimal digits, and recent Pythons reject literals longer than 4300 digits. Neither is modelled.
- `calculate_end_time` also formats an `end_time` string that it never uses (core/scraper.py:104). That string is not modelled.
- `GapFill.FillMissingTimeslots` requires every slot to have a timeslot string. The classifier always provides one; on a None timeslot the source would raise AttributeError.
- Python dicts keep insertion order, while Dafny maps are unordered. Key order in the details map and the room map is therefore not modelled.
- The "Unrecognised timeslot format" message printed for a dropped title is console output and is not modelled.
- `format_date`, `read_credentials`, `pretty_print_json`, `write_json` and the Redis credential store in core/core_helpers.py and core/helper.py are not modelled. They are date-library, environment, file or external-store I/O.
- `send_large_message`, the chat bots, the task queue, the HTTP service, the web frontend and the architecture diagram are not part of this model.
