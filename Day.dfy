/** A weekday: its name, its working hours (unset until first given) and its
    shifts, kept in ascending order of start time. Day validates new shifts
    and working hours and renders the per-day projections. */
module Days {
  import opened Lexical
  import opened Messages
  import opened Times
  import opened StaffMembers
  import opened Shifts

  /** The window of a shift passed the format and bounds checks. */
  predicate WindowOk(s: Shift) {
    TimeFormatOk(s.startTime, s.endTime) && TimesValid(s.startTime, s.endTime)
  }

  /** The specification of the clash loop: some shift's window clashes with
      [startTime, endTime]. */
  predicate ClashesWithAny(startTime: string, endTime: string, ss: seq<Shift>) {
    exists i :: 0 <= i < |ss| && Clash(startTime, endTime, ss[i].startTime, ss[i].endTime)
  }

  /** A shift that passed the checks and clashes with none of a strictly
      start-sorted list has a start of its own, so inserting it keeps the list
      strictly sorted, and every shift of the result, being the new one or one
      of the list, passed the checks and is valid. */
  lemma InsertAcceptedShift(ss: seq<Shift>, n: Shift)
    requires forall i :: 0 <= i < |ss| ==> WindowOk(ss[i]) && ss[i].Valid()
    requires StrictlySortedBy(ss, StartOf)
    requires WindowOk(n) && n.Valid()
    requires !ClashesWithAny(n.startTime, n.endTime, ss)
    ensures StrictlySortedBy(InsertSorted(ss, n, StartOf), StartOf)
    ensures forall i :: 0 <= i < |ss| + 1 ==>
      WindowOk(InsertSorted(ss, n, StartOf)[i]) && InsertSorted(ss, n, StartOf)[i].Valid()
  {
    forall i | 0 <= i < |ss| ensures StartOf(ss[i]) != StartOf(n) {
      if StartOf(ss[i]) == StartOf(n) {
        SameStartClashes(n.startTime, n.endTime, ss[i].startTime, ss[i].endTime);
        assert false;
      }
    }
    InsertSortedKeepsStrict(ss, n, StartOf);
    InsertSortedMembers(ss, n, StartOf);
    var r := InsertSorted(ss, n, StartOf);
    forall i | 0 <= i < |r| ensures WindowOk(r[i]) && r[i].Valid() {
      if r[i] != n {
        var k :| 0 <= k < |ss| && ss[k] == r[i];
      }
    }
  }

  /** Which shifts a filtering projection keeps. */
  datatype Selector =
    | Unmanaged
    | WithStatus(status: int)
    | WithWorker(staff: StaffMember)
    | WithManager(manager: StaffMember)

  /** The test each projection applies to a shift. A shift without a manager
      is not kept by WithManager; the Java test would dereference null there,
      which the projection's precondition rules out. */
  predicate Selects(sel: Selector, s: Shift)
    reads s
  {
    match sel
    case Unmanaged => !s.IsManagerAssigned()
    case WithStatus(status) => s.OverOrUnderstaffed() == status
    case WithWorker(staff) => s.IsStaffMemberAssigned(staff)
    case WithManager(m) => s.manager != null && s.IsSpecificManagerAssigned(m)
  }

  /** The shifts the selector keeps, in their original order. */
  function Selected(ss: seq<Shift>, sel: Selector): (r: seq<Shift>)
    reads ss
    decreases |ss|
  {
    if ss == [] then []
    else
      var init := ss[..|ss| - 1];
      var last := ss[|ss| - 1];
      assert forall s :: s in init ==> s in ss;
      Selected(init, sel) + (if Selects(sel, last) then [last] else [])
  }

  /** Selected keeps exactly the shifts the selector accepts: every kept
      shift is one of the list and is accepted, and every accepted shift of
      the list is kept. */
  lemma {:induction false} SelectedMembers(ss: seq<Shift>, sel: Selector)
    ensures |Selected(ss, sel)| <= |ss|
    ensures forall i :: 0 <= i < |Selected(ss, sel)| ==>
      Selected(ss, sel)[i] in ss && Selects(sel, Selected(ss, sel)[i])
    ensures forall i :: 0 <= i < |ss| && Selects(sel, ss[i]) ==> ss[i] in Selected(ss, sel)
    decreases |ss|
  {
    if ss != [] {
      var init := ss[..|ss| - 1];
      var last := ss[|ss| - 1];
      SelectedMembers(init, sel);
      var t := Selected(init, sel);
      var r := Selected(ss, sel);
      assert r == t + (if Selects(sel, last) then [last] else []);
      forall i | 0 <= i < |r| ensures r[i] in ss && Selects(sel, r[i]) {
        if i < |t| {
          var k :| 0 <= k < |init| && init[k] == t[i];
          assert ss[k] == r[i];
        }
      }
      forall i | 0 <= i < |ss| && Selects(sel, ss[i]) ensures ss[i] in r {
        if i < |init| {
          assert init[i] == ss[i];
          var k :| 0 <= k < |t| && t[k] == ss[i];
          assert r[k] == ss[i];
        }
      }
    }
  }

  /** Filtering keeps the start order: a strictly start-sorted list of shifts
      stays strictly start-sorted. */
  lemma {:induction false} SelectedKeepsOrder(ss: seq<Shift>, sel: Selector)
    requires StrictlySortedBy(ss, StartOf)
    ensures StrictlySortedBy(Selected(ss, sel), StartOf)
    decreases |ss|
  {
    if ss != [] {
      var init := ss[..|ss| - 1];
      var last := ss[|ss| - 1];
      assert StrictlySortedBy(init, StartOf);
      SelectedKeepsOrder(init, sel);
      SelectedMembers(init, sel);
      var t := Selected(init, sel);
      if Selects(sel, last) {
        forall i | 0 <= i < |t| ensures Compare(StartOf(t[i]), StartOf(last)) < 0 {
          var k :| 0 <= k < |init| && init[k] == t[i];
          assert ss[k] == t[i];
        }
        StrictlySortedAppend(t, last, StartOf);
      }
    }
  }

  /** Each shift rendered as the day name followed by "[start-end]". */
  function Labelled(dayName: string, ss: seq<Shift>): (r: seq<string>) {
    seq(|ss|, i requires 0 <= i < |ss| => dayName + ss[i].ToString())
  }

  /** One roster line per shift: the day name followed by the shift's
      roster rendering. */
  function RosterLines(dayName: string, ss: seq<Shift>): (r: seq<string>)
    reads ss
  {
    seq(|ss|, i reads ss requires 0 <= i < |ss| => dayName + ss[i].RosterLine())
  }

  /** Every shift's workers followed by its manager slot, shift by shift. */
  function AllStaff(ss: seq<Shift>): (r: seq<StaffMember?>)
    reads ss
    decreases |ss|
  {
    if ss == [] then []
    else
      var init := ss[..|ss| - 1];
      assert forall s :: s in init ==> s in ss;
      AllStaff(init) + ss[|ss| - 1].GetAssignedStaff()
  }

  /** A member occurs in AllStaff exactly when it works on, or manages, one
      of the shifts. */
  lemma {:induction false} AllStaffMembers(ss: seq<Shift>, m: StaffMember)
    ensures m in AllStaff(ss) <==>
      exists i :: 0 <= i < |ss| && (m in ss[i].assignedStaff || ss[i].manager == m)
    decreases |ss|
  {
    if ss != [] {
      var init := ss[..|ss| - 1];
      var last := ss[|ss| - 1];
      AllStaffMembers(init, m);
      var g := last.GetAssignedStaff();
      assert m in g <==> m in last.assignedStaff || last.manager == m;
      if exists i :: 0 <= i < |ss| && (m in ss[i].assignedStaff || ss[i].manager == m) {
        var i :| 0 <= i < |ss| && (m in ss[i].assignedStaff || ss[i].manager == m);
        if i < |ss| - 1 {
          assert init[i] == ss[i];
        }
      }
      if exists i :: 0 <= i < |init| && (m in init[i].assignedStaff || init[i].manager == m) {
        var i :| 0 <= i < |init| && (m in init[i].assignedStaff || init[i].manager == m);
        assert ss[i] == init[i];
      }
    }
  }

  class Day {
    const dayName: string
    var startOfDay: Option<string>
    var endOfDay: Option<string>
    var shifts: seq<Shift>

    /** Hours are set together and only to a window that passed the checks;
        no shift exists before hours are set; every shift's window passed the
        checks; start times strictly increase; every shift is valid. */
    ghost predicate Valid()
      reads this, shifts
    {
      Ordered() && forall i :: 0 <= i < |shifts| ==> shifts[i].Valid()
    }

    /** The part of validity that depends on the day's own fields and on the
        shifts' windows only. */
    ghost predicate Ordered()
      reads this
    {
      && (startOfDay.Some? <==> endOfDay.Some?)
      && (HoursSet() ==>
            TimeFormatOk(startOfDay.value, endOfDay.value) && TimesValid(startOfDay.value, endOfDay.value))
      && (|shifts| > 0 ==> HoursSet())
      && (forall i :: 0 <= i < |shifts| ==> WindowOk(shifts[i]))
      && StrictlySortedBy(shifts, StartOf)
    }

    predicate HoursSet()
      reads this
    {
      startOfDay.Some? && endOfDay.Some?
    }

    constructor (dayOfWeek: string)
      ensures dayName == dayOfWeek
      ensures startOfDay.None? && endOfDay.None? && shifts == []
      ensures Valid()
    {
      dayName := dayOfWeek;
      startOfDay := None;
      endOfDay := None;
      shifts := [];
    }

    /** Stores new working hours after the format check and then the bounds
        check; on either error neither bound changes. Existing shifts are not
        checked again. */
    method SetWorkingHours(startTime: string, endTime: string) returns (r: Outcome)
      requires Valid()
      modifies this`startOfDay, this`endOfDay
      ensures Valid()
      ensures !TimeFormatOk(startTime, endTime) ==> r == Fail(TimeFormatError)
      ensures TimeFormatOk(startTime, endTime) && !TimesValid(startTime, endTime) ==> r == Fail(InvalidTimesError)
      ensures r.Fail? ==> startOfDay == old(startOfDay) && endOfDay == old(endOfDay)
      ensures TimeFormatOk(startTime, endTime) && TimesValid(startTime, endTime) ==>
        r == Pass && startOfDay == Some(startTime) && endOfDay == Some(endTime)
    {
      if !TimeFormatOk(startTime, endTime) {
        r := Fail(TimeFormatError);
      } else if !TimesValid(startTime, endTime) {
        r := Fail(InvalidTimesError);
      } else {
        startOfDay := Some(startTime);
        endOfDay := Some(endTime);
        r := Pass;
      }
    }

    /** checkWithinWorkingHours, read positively: closed containment of the
        window in the working hours. */
    predicate WithinWorkingHours(startTime: string, endTime: string)
      reads this
      requires HoursSet()
    {
      Compare(startTime, startOfDay.value) >= 0 && Compare(endTime, endOfDay.value) <= 0
    }

    /** The outcome addShift reaches, by its four checks in order: format,
        bounds, working hours, clash. The working-hours check reads the
        hours, which must then be set (the Java code dereferences them). */
    function AddShiftCheck(startTime: string, endTime: string): (r: Outcome)
      reads this
      requires HoursSet() || !TimeFormatOk(startTime, endTime) || !TimesValid(startTime, endTime)
    {
      if !TimeFormatOk(startTime, endTime) then Fail(TimeFormatError)
      else if !TimesValid(startTime, endTime) then Fail(InvalidTimesError)
      else if !WithinWorkingHours(startTime, endTime) then Fail(OutsideHoursError)
      else if ClashesWithAny(startTime, endTime, shifts) then Fail(ClashError)
      else Pass
    }

    /** Compares the new window with every shift, reading each shift's times
        back out of its "[start-end]" rendering. */
    method CheckAgainstOtherShifts(startTime: string, endTime: string) returns (clash: bool)
      requires Valid()
      ensures clash == ClashesWithAny(startTime, endTime, shifts)
    {
      for i := 0 to |shifts|
        invariant forall j :: 0 <= j < i ==> !Clash(startTime, endTime, shifts[j].startTime, shifts[j].endTime)
      {
        var s := shifts[i];
        ToStringRoundTrip(s);
        var otherStart := s.ToString()[1..6];
        var otherEnd := s.ToString()[7..12];
        assert otherStart == s.startTime && otherEnd == s.endTime;
        var startsTooSoon := Compare(startTime, otherEnd);
        var validStartComp := Compare(startTime, otherStart);
        var endsTooLate := Compare(endTime, otherStart);
        var validEndComp := Compare(endTime, otherEnd);
        if (startsTooSoon <= 0 && validStartComp >= 0) || (endsTooLate >= 0 && validEndComp <= 0) {
          assert Clash(startTime, endTime, shifts[i].startTime, shifts[i].endTime);
          return true;
        }
      }
      return false;
    }

    /** Adds a shift after the four checks. Any error leaves the shifts as they
        were; success adds exactly one fresh, unstaffed shift with the given
        window and minimum, at its place in start order. */
    method AddShift(startTime: string, endTime: string, minimumWorkers: int) returns (r: Outcome)
      requires Valid()
      requires HoursSet() || !TimeFormatOk(startTime, endTime) || !TimesValid(startTime, endTime)
      modifies this`shifts
      ensures Valid()
      ensures r == old(AddShiftCheck(startTime, endTime))
      ensures r.Fail? ==> shifts == old(shifts)
      ensures r.Pass? ==> exists s: Shift ::
        && fresh(s)
        && s.startTime == startTime && s.endTime == endTime && s.minWorkers == minimumWorkers
        && s.manager == null && s.assignedStaff == []
        && shifts == InsertSorted(old(shifts), s, StartOf)
    {
      if !TimeFormatOk(startTime, endTime) {
        r := Fail(TimeFormatError);
      } else if !TimesValid(startTime, endTime) {
        r := Fail(InvalidTimesError);
      } else if !WithinWorkingHours(startTime, endTime) {
        r := Fail(OutsideHoursError);
      } else {
        var clash := CheckAgainstOtherShifts(startTime, endTime);
        if clash {
          r := Fail(ClashError);
        } else {
          var newShift := new Shift(startTime, endTime, minimumWorkers);
          InsertAcceptedShift(shifts, newShift);
          shifts := InsertSorted(shifts, newShift, StartOf);
          r := Pass;
        }
      }
    }

    /** The first shift whose window is exactly [startTime, endTime]; the
        format is checked first. */
    function FindShift(startTime: string, endTime: string): (r: Result<Shift>)
      reads this
      ensures !TimeFormatOk(startTime, endTime) ==> r == Err(TimeFormatError)
      ensures TimeFormatOk(startTime, endTime) && r.Ok? ==>
        && r.value in shifts
        && r.value.startTime == startTime && r.value.endTime == endTime
      ensures TimeFormatOk(startTime, endTime) && r.Err? ==>
        && r.message == NoSuchShiftError
        && forall i :: 0 <= i < |shifts| ==> !(shifts[i].startTime == startTime && shifts[i].endTime == endTime)
    {
      if !TimeFormatOk(startTime, endTime) then Err(TimeFormatError)
      else match FirstIndex(shifts, (s: Shift) => s.CompareShiftTimes(startTime, endTime))
        case Some(i) => Ok(shifts[i])
        case None => Err(NoSuchShiftError)
    }

    /** Delegates to the shift: as manager or as worker. */
    method AssignStaff(shift: Shift, staff: StaffMember, isManager: bool) returns (r: Outcome)
      requires Valid() && shift.Valid()
      modifies shift
      ensures Valid() && shift.Valid()
      ensures isManager ==>
        && shift.assignedStaff == old(shift.assignedStaff)
        && (old(shift.manager) == null ==> r == Pass && shift.manager == staff)
        && (old(shift.manager) != null ==> r == Fail(ManagerTakenError) && shift.manager == old(shift.manager))
      ensures !isManager ==>
        && shift.manager == old(shift.manager)
        && (staff in old(shift.assignedStaff) ==>
              r == Fail(StaffTakenError) && shift.assignedStaff == old(shift.assignedStaff))
        && (staff !in old(shift.assignedStaff) ==>
              r == Pass && shift.assignedStaff == InsertSorted(old(shift.assignedStaff), staff, Key))
    {
      if isManager {
        r := shift.AssignManager(staff);
      } else {
        r := shift.AssignStaff(staff);
      }
      forall i | 0 <= i < |shifts| ensures shifts[i].Valid() {
      }
    }

    /** The lines of the shifts the selector keeps, in start order. */
    function Lines(sel: Selector): (r: seq<string>)
      reads this, shifts
    {
      Labelled(dayName, Selected(shifts, sel))
    }

    /** The one loop behind the four filtering projections. */
    method SelectLines(sel: Selector) returns (r: seq<string>)
      requires sel.WithManager? ==> forall i :: 0 <= i < |shifts| ==> shifts[i].manager != null
      ensures r == Lines(sel)
    {
      r := [];
      for i := 0 to |shifts|
        invariant r == Labelled(dayName, Selected(shifts[..i], sel))
      {
        assert shifts[..i + 1][..i] == shifts[..i];
        var s := shifts[i];
        var keep;
        match sel {
          case Unmanaged => keep := !s.IsManagerAssigned();
          case WithStatus(status) => keep := s.OverOrUnderstaffed() == status;
          case WithWorker(staff) => keep := s.IsStaffMemberAssigned(staff);
          case WithManager(m) => keep := s.IsSpecificManagerAssigned(m);
        }
        if keep {
          r := r + [dayName + s.ToString()];
        }
      }
      assert shifts[..|shifts|] == shifts;
    }

    /** Workers and manager slots of every shift, shift by shift. */
    method ListAllStaffWorkingToday() returns (r: seq<StaffMember?>)
      ensures r == AllStaff(shifts)
    {
      r := [];
      for i := 0 to |shifts|
        invariant r == AllStaff(shifts[..i])
      {
        assert shifts[..i + 1][..i] == shifts[..i];
        r := r + shifts[i].GetAssignedStaff();
      }
      assert shifts[..|shifts|] == shifts;
    }

    method ListShiftsWithoutManagers() returns (r: seq<string>)
      ensures r == Lines(Unmanaged)
    {
      r := SelectLines(Unmanaged);
    }

    /** status -1 lists the understaffed shifts, 1 the overstaffed ones. */
    method ListOverOrUnderstaffedShifts(status: int) returns (r: seq<string>)
      ensures r == Lines(WithStatus(status))
    {
      r := SelectLines(WithStatus(status));
    }

    method ListShiftsWithStaffMember(staff: StaffMember) returns (r: seq<string>)
      ensures r == Lines(WithWorker(staff))
    {
      r := SelectLines(WithWorker(staff));
    }

    /** Every shift is examined, and the Java test dereferences its manager. */
    method ListShiftsWithManager(manager: StaffMember) returns (r: seq<string>)
      requires forall i :: 0 <= i < |shifts| ==> shifts[i].manager != null
      ensures r == Lines(WithManager(manager))
    {
      r := SelectLines(WithManager(manager));
    }

    /** One line per shift, in start order. */
    method GetDayRoster() returns (r: seq<string>)
      ensures r == RosterLines(dayName, shifts)
    {
      r := [];
      for i := 0 to |shifts|
        invariant |r| == i && forall j :: 0 <= j < i ==> r[j] == dayName + shifts[j].RosterLine()
      {
        var line := shifts[i].ShiftInfoForRoster();
        r := r + [dayName + line];
      }
    }

    /** "start-end"; an unset bound renders as Java renders null. */
    function GetWorkingHours(): (r: string)
      reads this
      ensures HoursSet() ==> r == startOfDay.value + "-" + endOfDay.value
      ensures HoursSet() && TimeFormatOk(startOfDay.value, endOfDay.value) ==>
        |r| == 11 && r[..5] == startOfDay.value && r[5] == '-' && r[6..] == endOfDay.value
    {
      NullOr(startOfDay) + "-" + NullOr(endOfDay)
    }

    function ToString(): (r: string) {
      dayName
    }
  }

  /** On well-formed times the working-hours check is closed containment of
      the window in the hours, as four-digit numbers. */
  lemma WithinWorkingHoursIff(d: Day, startTime: string, endTime: string)
    requires d.Valid() && d.HoursSet()
    requires TimeFormatOk(startTime, endTime)
    ensures d.WithinWorkingHours(startTime, endTime) <==>
      TimeValue(d.startOfDay.value) <= TimeValue(startTime) && TimeValue(endTime) <= TimeValue(d.endOfDay.value)
  {
    TimeOrder(startTime, d.startOfDay.value);
    TimeOrder(endTime, d.endOfDay.value);
  }

  /** addShift accepts a well-formed window exactly when it lies in
      00:01..23:59 with start before end, inside the working hours, and
      touches or overlaps no existing shift by the endpoint rule. */
  lemma AddShiftAccepts(d: Day, startTime: string, endTime: string)
    requires d.Valid() && d.HoursSet()
    requires TimeFormatOk(startTime, endTime)
    ensures d.AddShiftCheck(startTime, endTime).Pass? <==>
      && 1 <= TimeValue(startTime) < TimeValue(endTime) <= 2359
      && TimeValue(d.startOfDay.value) <= TimeValue(startTime)
      && TimeValue(endTime) <= TimeValue(d.endOfDay.value)
      && forall i :: 0 <= i < |d.shifts| ==>
           && !(TimeValue(d.shifts[i].startTime) <= TimeValue(startTime) <= TimeValue(d.shifts[i].endTime))
           && !(TimeValue(d.shifts[i].startTime) <= TimeValue(endTime) <= TimeValue(d.shifts[i].endTime))
  {
    TimesValidIff(startTime, endTime);
    WithinWorkingHoursIff(d, startTime, endTime);
    forall i | 0 <= i < |d.shifts|
      ensures Clash(startTime, endTime, d.shifts[i].startTime, d.shifts[i].endTime) <==>
        || TimeValue(d.shifts[i].startTime) <= TimeValue(startTime) <= TimeValue(d.shifts[i].endTime)
        || TimeValue(d.shifts[i].startTime) <= TimeValue(endTime) <= TimeValue(d.shifts[i].endTime)
    {
      assert WindowOk(d.shifts[i]);
      ClashIff(startTime, endTime, d.shifts[i].startTime, d.shifts[i].endTime);
    }
  }

  /** A day's shifts are ordered by start and no two start together. */
  lemma StartsDistinct(d: Day, i: nat, j: nat)
    requires d.Valid()
    requires i < j < |d.shifts|
    ensures d.shifts[i].startTime != d.shifts[j].startTime
    ensures TimeValue(d.shifts[i].startTime) < TimeValue(d.shifts[j].startTime)
  {
    assert WindowOk(d.shifts[i]) && WindowOk(d.shifts[j]);
    CompareZeroIff(d.shifts[i].startTime, d.shifts[j].startTime);
    TimeOrder(d.shifts[i].startTime, d.shifts[j].startTime);
  }

  /** With working hours [open, close], a first shift [open, noon] is
      accepted and a second one [noon, later] that starts exactly when the
      first ends is refused as a clash (09:00-12:00 and then 12:00-13:00 in
      09:00-17:00, say). */
  method TouchingShiftRejected(open: string, noon: string, later: string, close: string)
    returns (first: Outcome, second: Outcome)
    requires IsTime(open) && IsTime(noon) && IsTime(later) && IsTime(close)
    requires 1 <= TimeValue(open) < TimeValue(noon) < TimeValue(later) <= TimeValue(close) <= 2359
    ensures first == Pass
    ensures second == Fail(ClashError)
  {
    TimesValidIff(open, close);
    TimesValidIff(open, noon);
    TimesValidIff(noon, later);
    var day := new Day("Monday");
    var hours := day.SetWorkingHours(open, close);
    WithinWorkingHoursIff(day, open, noon);
    first := day.AddShift(open, noon, 1);
    ghost var morning: Shift :| morning.startTime == open && morning.endTime == noon &&
      day.shifts == InsertSorted([], morning, StartOf);
    InsertIntoEmpty(morning, StartOf);
    WithinWorkingHoursIff(day, noon, later);
    ClashIff(noon, later, open, noon);
    assert Clash(noon, later, day.shifts[0].startTime, day.shifts[0].endTime);
    second := day.AddShift(noon, later, 1);
  }

  /** Java's rendering of a possibly null string in a concatenation. */
  function NullOr(s: Option<string>): (r: string) {
    if s.Some? then s.value else "null"
  }
}
