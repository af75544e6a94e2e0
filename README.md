# Shift manager roster — a Dafny model

This project models the core of a single-shop weekly staff roster. It covers:

- the working hours of each weekday;
- the shifts inside those hours;
- the registry of staff;
- the assignment of registered staff to shifts, as worker or as manager;
- the reports built from that state.

The model follows the four server classes `Day`, `Shift`, `Roster` and `StaffMember`.

- **Classes.** Each Java class becomes a Dafny class whose mutable fields the methods update under `modifies` clauses. Staff members, shifts and days are compared by object identity, as in Java, because none of the Java classes overrides `equals`.
- **Error messages.** Every user error carries the exact message string the Java code throws. The roster's string-returning operations give `""` on success and that message on failure (`Messages.Reply`).
- **String comparison.** Java's `String.compareTo` is modelled on characters (`Lexical.Compare`): the difference of the first differing characters, or else the difference of the lengths. Java compares UTF-16 code units instead, which differs only on characters outside the Basic Multilingual Plane (see "## Left out").
- **Times.** Times are strings checked against `dd:dd` and then compared lexically. `Times.TimeOrder` proves that on such strings lexical order is the numeric order of the four digits. The other time lemmas state their results in those numbers.
- **Sorting.** Every "add, then `Collections.sort`" on a list that is already sorted becomes stable sorted insertion (`Lexical.InsertSorted`). The new element goes after every element whose key is not greater than its own.
- **Per-day projections.** The Java loops that filter shifts are methods with loops. Each is proved equal to a specification function (`Days.Selected`, `Days.Labelled`, `Days.AllStaff`). Lemmas then state what those functions keep and in what order.
- **Cross-day reports.** These are loops over the seven days, specified by `Rosters.Roster.WeekLines` and `Rosters.Roster.WeekStaff`.
- **Validity.** `Days.Day.Valid` and `Rosters.Roster.Valid` are invariants that every state-changing operation preserves:
  - the hours are set together and to an accepted window;
  - no shift exists before the hours are set;
  - every shift's window passed the checks;
  - start times strictly increase;
  - every shift's workers are sorted and free of repeats;
  - the registry is sorted.

## Behaviour of the code as written

The model follows the code where the code does something other than what its own comments, messages and error branches show was intended.

- **Touching shifts clash.** The comment above `checkAgainstOtherShifts` (`Day.java:190-196`) says the test rules out overlap, and a shift that starts exactly when another ends does not overlap it. The clash test in `checkAgainstOtherShifts` uses closed intervals, so such a shift is refused. `Times.TouchingWindowsClash` shows this on concrete times. `Days.TouchingShiftRejected` shows it through `addShift` on a day.
- **A contained shift is missed.** The same comment draws only the two cases of partial overlap. The clash test only asks whether the new start or the new end lies inside an existing shift. A new shift that strictly contains an existing one is accepted (`Times.ContainedWindowMissed`). So the shifts of a day are start-ordered with distinct starts (`Days.StartsDistinct`), but they need not be disjoint.
- **Duplicate registration never fires.** `registerStaff` has a branch that refuses an already registered employee (`Roster.java:82-83`), which shows that registering the same names twice is meant to fail. It tests a freshly built object for list membership, and that test compares identity. It is never true, so both registrations succeed and the registry lists the name twice (`Rosters.DuplicateRegistrationAccepted`).
- **Names are compared as one concatenated string.** `compareTo` concatenates family name and given name without a separator, so different name pairs can compare equal (`StaffMembers.ConcatenationConflatesNames`).
- **Minutes are not checked.** The `dd:dd` pattern is the only format check, so "09:75" is accepted as a time (`Times.IsTime`).
- **`addShift` needs working hours.** Before the working hours are set, `addShift` on a well-formed, in-bounds window dereferences the unset hours. The model makes that case a precondition (`Days.Day.AddShift`, `Rosters.Roster.AddShift`).
- **`getRosterForManager` needs a manager on every shift.** `isSpecificManagerAssigned` dereferences the shift's manager, and `getRosterForManager` calls it on every shift of the week. The model therefore requires that every shift has a manager whenever the named member is found (`Rosters.Roster.GetRosterForManager`, `Days.Day.ListShiftsWithManager`, `Shifts.Shift.IsSpecificManagerAssigned`).

## Model

| member | source | states |
|---|---|---|
| Messages.Reply | src/shiftman/server/Roster.java:53-62 | the returned string is "" exactly on success and is the error's message otherwise |
| Lexical.Compare | src/shiftman/server/StaffMember.java:22-26 | String.compareTo: equal strings compare 0 |
| Lexical.CompareAntisymmetric | src/shiftman/server/StaffMember.java:22-26 | swapping the strings negates compareTo exactly |
| Lexical.CompareZeroIff | src/shiftman/server/Shift.java:123-125 | compareTo is 0 exactly on equal strings |
| Lexical.CompareTransitive | src/shiftman/server/Shift.java:123-125 | the compareTo order is transitive, strictly so when one step is strict |
| Lexical.InsertSorted | src/shiftman/server/Shift.java:47-49 | adding one element and re-sorting grows the list by one and adds exactly that element to its multiset |
| Lexical.InsertionPoint | src/shiftman/server/Shift.java:47-49 | the new element's place: after every element whose key is not greater, before the first greater one |
| Lexical.InsertSortedAt | src/shiftman/server/Shift.java:47-49 | the stable sort leaves the old elements in order and puts the new one at its insertion point |
| Lexical.InsertSortedLast | src/shiftman/server/Roster.java:85-87 | an element whose key no element exceeds goes last: equal keys keep insertion order |
| Lexical.InsertSortedMembers | src/shiftman/server/Day.java:50-53 | every element after the insertion is the new one or an old one |
| Lexical.InsertSortedKeepsSorted | src/shiftman/server/Roster.java:85-87 | inserting into a sorted list leaves it sorted |
| Lexical.InsertSortedKeepsStrict | src/shiftman/server/Day.java:50-53 | inserting a new key into a strictly sorted list leaves it strictly sorted |
| Lexical.InsertSortedNoRepeats | src/shiftman/server/Shift.java:43-51 | inserting an element not yet present keeps the list free of repeats |
| Lexical.FirstIndex | src/shiftman/server/Roster.java:243-251 | the linear search returns the first matching index, and nothing only when no element matches |
| Lexical.SuffixedIsJoinPlusSeparator | src/shiftman/server/Shift.java:79-83 | appending each name with ", " and dropping the final two characters gives the names joined by ", " |
| Lexical.JoinShape | src/shiftman/server/Shift.java:79-83 | the joined names start with the first name, followed by ", " when there is more than one |
| Times.TimeOrder | src/shiftman/server/Day.java:148-157 | on dd:dd strings lexical comparison agrees with numeric comparison of the four digits, in all three outcomes |
| Times.TimesValidIff | src/shiftman/server/Day.java:164-175 | on well-formed times the bounds check accepts exactly 1 <= start < end <= 2359 |
| Times.ClashIff | src/shiftman/server/Day.java:198-216 | on well-formed times the clash test holds exactly when the new start or the new end lies in the closed existing window |
| Times.TouchingWindowsClash | src/shiftman/server/Day.java:203-210 | a window starting when an existing one ends clashes with it |
| Times.ContainedWindowMissed | src/shiftman/server/Day.java:203-210 | an existing window strictly inside the new one is not detected |
| Times.SameStartClashes | src/shiftman/server/Day.java:203-210 | a window with the start of an existing valid window always clashes with it |
| StaffMembers.StaffMember.constructor | src/shiftman/server/StaffMember.java:12-16 | a member holds the given and family names it was built with |
| StaffMembers.CompareToAntisymmetric | src/shiftman/server/StaffMember.java:22-26 | a.compareTo(b) is exactly minus b.compareTo(a) |
| StaffMembers.CompareToZeroIff | src/shiftman/server/StaffMember.java:22-26 | compareTo is 0 exactly when family+given strings are equal, hence for equal names |
| StaffMembers.ConcatenationConflatesNames | src/shiftman/server/StaffMember.java:23-25 | Lee/Ann and Le/eAnn compare equal although their family names differ |
| StaffMembers.ToStringParts | src/shiftman/server/StaffMember.java:40-42 | the conventional name is the given name, one space, the family name, by position |
| StaffMembers.ReversedNameParts | src/shiftman/server/StaffMember.java:31-33 | the reversed name is the family name, ", ", the given name, by position |
| StaffMembers.SameNamesDistinctMembers | src/shiftman/server/StaffMember.java:6-16 | two members with the same names are different objects yet compare 0 |
| Shifts.Shift.constructor | src/shiftman/server/Shift.java:24-31 | a new shift has the given window and minimum, no manager and no workers, and is valid |
| Shifts.Shift.AssignManager | src/shiftman/server/Shift.java:35-41 | sets the manager when there is none; otherwise fails with the manager message and keeps the first |
| Shifts.Shift.AssignStaff | src/shiftman/server/Shift.java:43-51 | refuses the very object already listed and leaves the list unchanged; otherwise inserts exactly that member in sorted place; keeps the list sorted and free of repeats |
| Shifts.Shift.GetAssignedStaff | src/shiftman/server/Shift.java:56-61 | the workers in order followed by the manager slot, which may be null |
| Shifts.Shift.OverOrUnderstaffed | src/shiftman/server/Shift.java:63-68 | -1, 0 or 1 exactly as the worker count is below, equal to or above the minimum |
| Shifts.Shift.ShiftInfoForRoster | src/shiftman/server/Shift.java:74-94 | the loop-built line equals "[s-e] " + manager part + " [" + workers joined by ", " or the no-worker text + "]" |
| Shifts.Shift.IsManagerAssigned | src/shiftman/server/Shift.java:96-98 | a manager is present exactly when the manager slot getAssignedStaff appends is not null |
| Shifts.Shift.IsSpecificManagerAssigned | src/shiftman/server/Shift.java:104-106 | needs a manager; holds exactly when compareTo finds the family+given strings equal, so for any member with the manager's names |
| Shifts.Shift.IsStaffMemberAssigned | src/shiftman/server/Shift.java:108-110 | passes exactly for the members in the worker part of getAssignedStaff; a member that only manages the shift fails; any other member of getAssignedStaff passes |
| Shifts.CompareShiftTimesByRendering | src/shiftman/server/Shift.java:116-118 | on well-formed windows, compareShiftTimes is exact equality of both ends, i.e. the shift renders as "[start-end]" |
| Shifts.IdentityForWorkersNamesForManager | src/shiftman/server/Shift.java:104-110 | with a member as worker and manager of a shift, a second member with the same names fails the worker test (identity) and passes the manager test (names); a member that only manages a shift fails the worker test |
| Shifts.ToStringRoundTrip | src/shiftman/server/Shift.java:131-134 | "[start-end]" has 13 characters, and characters 1-5 and 7-11 give back the start and end |
| Shifts.CompareToByStartOnly | src/shiftman/server/Shift.java:123-125 | shifts compare 0 exactly when their starts are equal, and the comparison is antisymmetric |
| Shifts.RosterLineShape | src/shiftman/server/Shift.java:93 | a roster line begins with the shift's "[s-e]" and a space, and ends with "]" |
| Days.InsertAcceptedShift | src/shiftman/server/Day.java:47-53 | a shift that passed the checks and clashes with none has a start of its own, so sorted insertion keeps the day strictly start-ordered and valid |
| Days.SelectedMembers | src/shiftman/server/Day.java:73-126 | the filtered shifts are exactly the day's shifts the test accepts, and are no more than the day has |
| Days.SelectedKeepsOrder | src/shiftman/server/Day.java:73-126 | filtering keeps the strict start order |
| Days.AllStaffMembers | src/shiftman/server/Day.java:65-71 | a member is in the day's staff list exactly when it works on or manages one of its shifts |
| Days.Day.constructor | src/shiftman/server/Day.java:21-25 | a new day has its name, no hours and no shifts, and is valid |
| Days.Day.SetWorkingHours | src/shiftman/server/Day.java:29-38 | the format error first, then the bounds error, each leaving the hours as they were; otherwise both hours are set; validity is kept |
| Days.Day.CheckAgainstOtherShifts | src/shiftman/server/Day.java:198-216 | the loop that reads each shift's times back from its rendering returns true exactly when some shift clashes |
| Days.Day.AddShift | src/shiftman/server/Day.java:40-55 | the four checks in order (format, bounds, hours, clash); any error leaves the shifts unchanged; success inserts one fresh, unstaffed shift with that window and minimum in start order; validity is kept |
| Days.Day.FindShift | src/shiftman/server/Day.java:134-146 | the format error first; then a shift of the day with exactly that window, or the no-shift error when none has it |
| Days.Day.AssignStaff | src/shiftman/server/Day.java:57-63 | delegates to the manager or worker assignment, with that one's outcome and effect; the other role is untouched and the shifts stay valid |
| Days.Day.SelectLines | src/shiftman/server/Day.java:73-126 | the filtering loop yields, in order, one line per selected shift: the day name followed by the shift's "[start-end]" |
| Days.Day.ListAllStaffWorkingToday | src/shiftman/server/Day.java:65-71 | the loop yields every shift's workers and manager slot, shift by shift |
| Days.Day.ListShiftsWithoutManagers | src/shiftman/server/Day.java:73-82 | the lines of the shifts with no manager |
| Days.Day.ListOverOrUnderstaffedShifts | src/shiftman/server/Day.java:84-95 | the lines of the shifts whose staffing status equals the one asked for |
| Days.Day.ListShiftsWithStaffMember | src/shiftman/server/Day.java:106-115 | the lines of the shifts whose workers include that very member |
| Days.Day.ListShiftsWithManager | src/shiftman/server/Day.java:117-126 | the lines of the shifts whose manager compares equal to the member |
| Days.Day.GetDayRoster | src/shiftman/server/Day.java:97-104 | the loop yields one line per shift in start order: the day name followed by the shift's roster line |
| Days.Day.GetWorkingHours | src/shiftman/server/Day.java:231-233 | "start-end" of the set hours; for well-formed hours an 11-character string whose first five characters give back the start and last five the end |
| Days.WithinWorkingHoursIff | src/shiftman/server/Day.java:182-188 | on well-formed times the hours check is closed containment of the window in the hours |
| Days.AddShiftAccepts | src/shiftman/server/Day.java:40-55 | a well-formed window is accepted exactly when 1 <= start < end <= 2359, it lies in the hours, and neither endpoint lies in an existing shift's closed window |
| Days.StartsDistinct | src/shiftman/server/Day.java:50-53 | shifts of a valid day have distinct, strictly increasing starts |
| Days.TouchingShiftRejected | src/shiftman/server/Day.java:198-216 | on a day with hours [open, close], [open, noon] is accepted and [noon, later] is refused with the clash message |
| Rosters.NamesOf | src/shiftman/server/Roster.java:128-132 | the loop yields one conventional name ("given family") per member, in the members' order |
| Rosters.WithoutMembers | src/shiftman/server/Roster.java:124-125 | removeAll keeps exactly the listed members that are not, by identity, in the working list |
| Rosters.WithoutKeepsOrder | src/shiftman/server/Roster.java:124-126 | removal keeps the registry sorted, so the sort that follows changes nothing |
| Rosters.Roster.constructor | src/shiftman/server/Roster.java:39-49 | seven fresh days named Monday to Sunday in order, with no hours and no shifts, an empty registry, and a valid roster |
| Rosters.Roster.FindDayInWeek | src/shiftman/server/Roster.java:243-251 | a day of the week with that exact name, or the day error when no day has it |
| Rosters.Roster.FindRegisteredStaffMember | src/shiftman/server/Roster.java:257-267 | the first registered member whose conventional name is "given family", or the staff error when none matches |
| Rosters.Roster.DayIndex | src/shiftman/server/Roster.java:23-47 | a day is found exactly for the seven names, and it is the day at that name's place |
| Rosters.Roster.SetWorkingHours | src/shiftman/server/Roster.java:53-62 | the day error, else the day's own outcome as a string; only the named day changes, and its shifts do not |
| Rosters.Roster.AddShift | src/shiftman/server/Roster.java:64-73 | the day error, else the day's addShift outcome as a string with its effect; the day's working hours never change; no other day changes |
| Rosters.Roster.RegisterStaff | src/shiftman/server/Roster.java:75-90 | a missing name gives the empty-name error; otherwise the registry always grows by exactly one fresh member in sorted place |
| Rosters.Roster.AssignTargets | src/shiftman/server/Roster.java:94-97 | lookups in the Java order (day, then member, then shift), with the first error; a found shift belongs to that day and has that window |
| Rosters.Roster.AssignStaff | src/shiftman/server/Roster.java:92-103 | a lookup error changes nothing; otherwise "" exactly when the shift accepted the member, with the new manager or sorted workers; no other shift changes |
| Rosters.Roster.AssignOnShift | src/shiftman/server/Roster.java:98 | the shift's own check decides the reply and the effect, and the roster stays valid |
| Rosters.Roster.ListRegisteredStaff | src/shiftman/server/Roster.java:105-111 | the registered members' conventional names in registry order |
| Rosters.Roster.CollectWeekStaff | src/shiftman/server/Roster.java:115-119 | the loop collects the staff lists of the seven days in week order |
| Rosters.Roster.ListUnassignedStaff | src/shiftman/server/Roster.java:113-135 | the names of the registered members left after removing everyone on the week's staff lists; that list is already sorted, so the sort at line 126 leaves it as it is |
| Rosters.Roster.UnassignedStaff | src/shiftman/server/Roster.java:113-135 | a member is listed as unassigned exactly when it is registered and works on and manages no shift of the week; the list is sorted |
| Rosters.Roster.WeekStaffMembers | src/shiftman/server/Roster.java:115-119 | a member is on the first k days' staff lists exactly when it works on or manages a shift of one of them |
| Rosters.Roster.CollectWeek | src/shiftman/server/Roster.java:137-157 | the loop concatenates the selected lines of each day, Monday to Sunday |
| Rosters.Roster.ListUnmanagedShifts | src/shiftman/server/Roster.java:137-145 | the week's unmanaged shift lines in day order |
| Rosters.Roster.ListOverOrUnderstaffedShifts | src/shiftman/server/Roster.java:147-157 | the week's shift lines with the requested staffing status in day order |
| Rosters.Roster.DayRenderings | src/shiftman/server/Day.java:238-241 | the days of a valid roster render as Monday to Sunday in order, pairwise different, so the name match of findDayInWeek singles out one day |
| Rosters.NewRosterRendering | src/shiftman/server/Roster.java:272-275 | a new roster renders as the shop name it was created with; its first day renders as "Monday" and its last as "Sunday" |
| Rosters.Roster.WeekLinesInDayOrder | src/shiftman/server/Roster.java:140-142 | a week report is the seven per-day reports concatenated, Monday first |
| Rosters.Roster.GetRosterForDay | src/shiftman/server/Roster.java:159-182 | the day error as a one-element list; nothing for a day without shifts; otherwise shop name, "day start-end" and one roster line per shift |
| Rosters.Roster.GetRosterForWorker | src/shiftman/server/Roster.java:184-208 | the staff error as a one-element list; nothing when the member works no shift; otherwise the reversed name and then the shifts' lines in week order |
| Rosters.Roster.GetRosterForManager | src/shiftman/server/Roster.java:210-235 | the same as the worker roster, for the shifts whose manager compares equal to the member |
| Rosters.DuplicateRegistrationAccepted | src/shiftman/server/Roster.java:80-89 | registering the same names twice returns "" both times, and the registry then lists that name twice |
| Rosters.DayNamesDistinct | src/shiftman/server/Roster.java:23-25 | the seven day names are pairwise different |

## Left out

- ShiftManServer is not part of this model. It is the string-based façade that forwards to a roster and reports when no roster exists yet.
- NewRosterDemo is not part of this model. It is a console demo driver.
- ShiftManUserException is not a class here. A thrown user error becomes `Fail(message)` or `Err(message)` carrying the same message.
- The `System.out.println` logging in the constructors is left out, because it is output only.
- `Integer.parseInt` of the minimum worker count is left out. The model takes the minimum as an already parsed `int`, so the parse failure path is not modelled.
- `String.matches` with the pattern `\d\d:\d\d` is modelled by an explicit character predicate over the ASCII digits. Java's `\d` is also ASCII-only by default.
- Java strings are sequences of UTF-16 code units, while Dafny's `string` is a sequence of characters. `compareTo` is modelled on those characters.
- `Collections.sort` is not modelled as a general sort. Each call site sorts a list that was already sorted. After an append, that sort is a stable sorted insertion; after `removeAll` of a sorted list, it is the identity (`Rosters.WithoutKeepsOrder`).
- Null names passed to the lookups and to the shift search are not modelled; names are plain strings there. `registerStaff`'s null check is modelled with `Option`.
- Null dereferences that throw are preconditions rather than modelled exceptions:
  - `addShift` before the working hours are set;
  - `isSpecificManagerAssigned` on a shift with no manager;
  - `getRosterForManager` when some shift has no manager.

  The model does not capture how the Java program behaves on those inputs.
