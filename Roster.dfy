/** The roster of one shop: seven fixed days, Monday to Sunday, and the
    registry of staff sorted by the staff ordering. The roster resolves day
    and staff names, turns user errors into their message strings ("" means
    success) and builds the cross-day reports day by day in week order. */
module Rosters {
  import opened Lexical
  import opened Messages
  import opened Times
  import opened StaffMembers
  import opened Shifts
  import opened Days

  /** The names of the DaysOfWeek enumeration, in declaration order. */
  const DayNames: seq<string> := ["Monday", "Tuesday", "Wednesday", "Thursday", "Friday", "Saturday", "Sunday"]

  /** The conventional names of registered members that are not in the
      assigned list, by identity, in registry order (removeAll). */
  function Without(staff: seq<StaffMember>, working: seq<StaffMember?>): (r: seq<StaffMember>)
    decreases |staff|
  {
    if staff == [] then []
    else
      var last := staff[|staff| - 1];
      Without(staff[..|staff| - 1], working) + (if last in working then [] else [last])
  }

  /** Without keeps exactly the members that are not in the working list. */
  lemma {:induction false} WithoutMembers(staff: seq<StaffMember>, working: seq<StaffMember?>)
    ensures forall i :: 0 <= i < |Without(staff, working)| ==>
      Without(staff, working)[i] in staff && Without(staff, working)[i] !in working
    ensures forall i :: 0 <= i < |staff| && staff[i] !in working ==> staff[i] in Without(staff, working)
    decreases |staff|
  {
    if staff != [] {
      var init := staff[..|staff| - 1];
      var last := staff[|staff| - 1];
      WithoutMembers(init, working);
      var t := Without(init, working);
      var r := Without(staff, working);
      assert r == t + (if last in working then [] else [last]);
      forall i | 0 <= i < |r| ensures r[i] in staff && r[i] !in working {
        if i < |t| {
          var k :| 0 <= k < |init| && init[k] == t[i];
          assert staff[k] == r[i];
        }
      }
      forall i | 0 <= i < |staff| && staff[i] !in working ensures staff[i] in r {
        if i < |init| {
          assert init[i] == staff[i];
          var k :| 0 <= k < |t| && t[k] == staff[i];
          assert r[k] == staff[i];
        }
      }
    }
  }

  /** The loop that renders members by their conventional names. */
  method NamesOf(ms: seq<StaffMember>) returns (r: seq<string>)
    ensures r == Names(ms)
  {
    r := [];
    for i := 0 to |ms|
      invariant |r| == i && forall j :: 0 <= j < i ==> r[j] == ms[j].ToString()
    {
      r := r + [ms[i].ToString()];
    }
  }

  /** Removing members keeps the registry's order. */
  lemma {:induction false} WithoutKeepsOrder(staff: seq<StaffMember>, working: seq<StaffMember?>)
    requires SortedBy(staff, Key)
    ensures SortedBy(Without(staff, working), Key)
    decreases |staff|
  {
    if staff != [] {
      var init := staff[..|staff| - 1];
      var last := staff[|staff| - 1];
      assert SortedBy(init, Key);
      WithoutKeepsOrder(init, working);
      WithoutMembers(init, working);
      var t := Without(init, working);
      if last !in working {
        forall i | 0 <= i < |t| ensures Compare(Key(t[i]), Key(last)) <= 0 {
          var k :| 0 <= k < |init| && init[k] == t[i];
          assert staff[k] == t[i];
        }
        SortedAppend(t, last, Key);
      }
    }
  }

  class Roster {
    const shopName: string
    var staffList: seq<StaffMember>
    const weekdays: seq<Day>

    /** Every shift of every day of the week. */
    ghost function WeekShifts(): (r: set<Shift>)
      reads weekdays
    {
      set i, j | 0 <= i < |weekdays| && 0 <= j < |weekdays[i].shifts| :: weekdays[i].shifts[j]
    }

    /** Seven days named Monday to Sunday in order, each one valid, and a
        registry sorted by compareTo. */
    ghost predicate Valid()
      reads this, weekdays, WeekShifts()
    {
      WeekCovers();
      && |weekdays| == 7
      && (forall i :: 0 <= i < 7 ==> weekdays[i].dayName == DayNames[i])
      && (forall i :: 0 <= i < 7 ==> weekdays[i].Valid())
      && SortedBy(staffList, Key)
    }

    /** Each day's shifts lie in the frame of the week. */
    lemma WeekCovers()
      ensures forall i, j :: 0 <= i < |weekdays| && 0 <= j < |weekdays[i].shifts| ==>
        weekdays[i].shifts[j] in WeekShifts()
    {
    }

    /** Builds the seven days in the order of the enumeration, with no hours
        and no shifts, and an empty registry. */
    constructor (name: string)
      ensures shopName == name && staffList == []
      ensures |weekdays| == 7
      ensures forall i :: 0 <= i < 7 ==>
        && fresh(weekdays[i])
        && weekdays[i].dayName == DayNames[i]
        && weekdays[i].shifts == [] && !weekdays[i].HoursSet()
      ensures Valid()
    {
      var days: seq<Day> := [];
      for i := 0 to |DayNames|
        invariant |days| == i
        invariant forall j :: 0 <= j < i ==>
          && fresh(days[j])
          && days[j].dayName == DayNames[j]
          && days[j].shifts == [] && days[j].startOfDay.None? && days[j].endOfDay.None?
      {
        var d := new Day(DayNames[i]);
        days := days + [d];
      }
      shopName := name;
      staffList := [];
      weekdays := days;
    }

    /** The first day whose name is dayName, or the day error. */
    function FindDayInWeek(dayName: string): (r: Result<Day>)
      ensures r.Ok? ==> r.value in weekdays && r.value.dayName == dayName
      ensures r.Err? ==>
        r.message == NoSuchDayError && forall i :: 0 <= i < |weekdays| ==> weekdays[i].dayName != dayName
    {
      match FirstIndex(weekdays, (d: Day) => d.ToString() == dayName)
      case Some(i) => Ok(weekdays[i])
      case None => Err(NoSuchDayError)
    }

    /** The first registered member whose conventional name is
        "givenName familyName", or the staff error. */
    function FindRegisteredStaffMember(givenName: string, familyName: string): (r: Result<StaffMember>)
      reads this
      ensures r.Ok? ==> r.value in staffList && r.value.ToString() == givenName + " " + familyName
      ensures r.Ok? ==>
        exists i :: 0 <= i < |staffList| && staffList[i] == r.value &&
          (forall j :: 0 <= j < i ==> staffList[j].ToString() != givenName + " " + familyName)
      ensures r.Err? ==>
        && r.message == NotRegisteredError
        && forall i :: 0 <= i < |staffList| ==> staffList[i].ToString() != givenName + " " + familyName
    {
      var staffName := givenName + " " + familyName;
      match FirstIndex(staffList, (s: StaffMember) => s.ToString() == staffName)
      case Some(i) => Ok(staffList[i])
      case None => Err(NotRegisteredError)
    }

    method SetWorkingHours(dayOfWeek: string, startTime: string, endTime: string) returns (r: string)
      requires Valid()
      modifies weekdays
      ensures Valid()
      ensures FindDayInWeek(dayOfWeek).Err? ==> r == NoSuchDayError && unchanged(weekdays)
      ensures FindDayInWeek(dayOfWeek).Ok? ==>
        var d := FindDayInWeek(dayOfWeek).value;
        && (!TimeFormatOk(startTime, endTime) ==> r == TimeFormatError)
        && (TimeFormatOk(startTime, endTime) && !TimesValid(startTime, endTime) ==> r == InvalidTimesError)
        && (TimeFormatOk(startTime, endTime) && TimesValid(startTime, endTime) ==> r == "")
        && (r == "" ==> d.startOfDay == Some(startTime) && d.endOfDay == Some(endTime))
        && (r != "" ==> unchanged(d))
        && d.shifts == old(d.shifts)
        && forall i :: 0 <= i < |weekdays| && weekdays[i] != d ==> unchanged(weekdays[i])
    {
      var found := FindDayInWeek(dayOfWeek);
      if found.Err? {
        return found.message;
      }
      var day := found.value;
      DayIndex(dayOfWeek);
      var o := day.SetWorkingHours(startTime, endTime);
      r := Reply(o);
    }

    /** The day found for a name is the one at that name's place in the week. */
    lemma DayIndex(dayName: string)
      requires Valid()
      ensures FindDayInWeek(dayName).Ok? <==> dayName in DayNames
      ensures forall i :: 0 <= i < 7 && DayNames[i] == dayName ==> FindDayInWeek(dayName) == Ok(weekdays[i])
      ensures FindDayInWeek(dayName).Ok? ==>
        forall i :: 0 <= i < 7 && weekdays[i] == FindDayInWeek(dayName).value ==> DayNames[i] == dayName
    {
      DayNamesDistinct();
    }

    method AddShift(dayOfWeek: string, startTime: string, endTime: string, minimumWorkers: int) returns (r: string)
      requires Valid()
      requires FindDayInWeek(dayOfWeek).Ok? ==>
        || FindDayInWeek(dayOfWeek).value.HoursSet()
        || !TimeFormatOk(startTime, endTime) || !TimesValid(startTime, endTime)
      modifies weekdays
      ensures Valid()
      ensures FindDayInWeek(dayOfWeek).Err? ==> r == NoSuchDayError && unchanged(weekdays)
      ensures FindDayInWeek(dayOfWeek).Ok? ==>
        var d := FindDayInWeek(dayOfWeek).value;
        && r == Reply(old(d.AddShiftCheck(startTime, endTime)))
        && d.startOfDay == old(d.startOfDay) && d.endOfDay == old(d.endOfDay)
        && (r != "" ==> d.shifts == old(d.shifts))
        && (r == "" ==> exists s: Shift ::
              && fresh(s)
              && s.startTime == startTime && s.endTime == endTime && s.minWorkers == minimumWorkers
              && s.manager == null && s.assignedStaff == []
              && d.shifts == InsertSorted(old(d.shifts), s, StartOf))
        && forall i :: 0 <= i < |weekdays| && weekdays[i] != d ==> unchanged(weekdays[i])
    {
      var found := FindDayInWeek(dayOfWeek);
      if found.Err? {
        return found.message;
      }
      var day := found.value;
      DayIndex(dayOfWeek);
      var o := day.AddShift(startTime, endTime, minimumWorkers);
      r := Reply(o);
    }

    /** registerStaff: a missing name is refused. Otherwise a new member is
        built, and since the registry holds no object identical to a fresh one
        the duplicate branch cannot fire: the registry always grows by exactly
        the new member, at its place in compareTo order. */
    method RegisterStaff(givenName: Option<string>, familyName: Option<string>) returns (r: string)
      requires Valid()
      modifies this
      ensures Valid()
      ensures givenName.None? || familyName.None? ==> r == EmptyNameError && staffList == old(staffList)
      ensures givenName.Some? && familyName.Some? ==>
        && r == ""
        && |staffList| == |old(staffList)| + 1
        && exists m: StaffMember ::
             && fresh(m)
             && m.givenName == givenName.value && m.familyName == familyName.value
             && staffList == InsertSorted(old(staffList), m, Key)
    {
      if givenName.None? || familyName.None? {
        return EmptyNameError;
      }
      var newStaff := new StaffMember(givenName.value, familyName.value);
      if newStaff in staffList {
        r := AlreadyRegisteredError;
      } else {
        InsertSortedKeepsSorted(staffList, newStaff, Key);
        staffList := InsertSorted(staffList, newStaff, Key);
        r := "";
      }
    }

    /** The targets of assignStaff, looked up in the order the Java code does:
        the day, then the member, then the shift (format, then existence). */
    function AssignTargets(dayOfWeek: string, startTime: string, endTime: string,
                           givenName: string, familyName: string): (r: Result<(Shift, StaffMember)>)
      reads this, weekdays
      ensures FindDayInWeek(dayOfWeek).Err? ==> r == Err(NoSuchDayError)
      ensures FindDayInWeek(dayOfWeek).Ok? && FindRegisteredStaffMember(givenName, familyName).Err? ==>
        r == Err(NotRegisteredError)
      ensures FindDayInWeek(dayOfWeek).Ok? && FindRegisteredStaffMember(givenName, familyName).Ok? ==>
        var d := FindDayInWeek(dayOfWeek).value;
        && (!TimeFormatOk(startTime, endTime) ==> r == Err(TimeFormatError))
        && (d.FindShift(startTime, endTime).Err? ==> r == Err(d.FindShift(startTime, endTime).message))
        && (d.FindShift(startTime, endTime).Ok? ==>
              r == Ok((d.FindShift(startTime, endTime).value, FindRegisteredStaffMember(givenName, familyName).value)))
      ensures r.Ok? ==>
        FindDayInWeek(dayOfWeek).Ok? && r.value.0 in FindDayInWeek(dayOfWeek).value.shifts
      ensures r.Ok? ==> r.value.0.startTime == startTime && r.value.0.endTime == endTime
      ensures r.Ok? ==> r.value.1.ToString() == givenName + " " + familyName
    {
      match FindDayInWeek(dayOfWeek)
      case Err(m) => Err(m)
      case Ok(day) =>
        match FindRegisteredStaffMember(givenName, familyName)
        case Err(m) => Err(m)
        case Ok(staff) =>
          match day.FindShift(startTime, endTime)
          case Err(m) => Err(m)
          case Ok(shift) => Ok((shift, staff))
    }

    /** assignStaff: the first lookup error is returned as it is; otherwise
        the shift's own check decides, and "" is returned exactly when the
        shift changed. No other shift changes. */
    method AssignStaff(dayOfWeek: string, startTime: string, endTime: string,
                       givenName: string, familyName: string, isManager: bool) returns (r: string)
      requires Valid()
      modifies WeekShifts()
      ensures Valid()
      ensures var targets := old(AssignTargets(dayOfWeek, startTime, endTime, givenName, familyName));
        && (targets.Err? ==> r == targets.message && unchanged(WeekShifts()))
        && (targets.Ok? ==>
          var shift, staff := targets.value.0, targets.value.1;
          && (isManager ==>
                && (r == "" <==> old(shift.manager) == null)
                && (r == "" ==> shift.manager == staff)
                && (r != "" ==> r == ManagerTakenError && shift.manager == old(shift.manager))
                && shift.assignedStaff == old(shift.assignedStaff))
          && (!isManager ==>
                && (r == "" <==> staff !in old(shift.assignedStaff))
                && (r == "" ==> shift.assignedStaff == InsertSorted(old(shift.assignedStaff), staff, Key))
                && (r != "" ==> r == StaffTakenError && shift.assignedStaff == old(shift.assignedStaff))
                && shift.manager == old(shift.manager))
          && forall s :: s in WeekShifts() && s != shift ==> unchanged(s))
    {
      var targets := AssignTargets(dayOfWeek, startTime, endTime, givenName, familyName);
      if targets.Err? {
        return targets.message;
      }
      var (shift, staff) := targets.value;
      var day := FindDayInWeek(dayOfWeek).value;
      r := AssignOnShift(day, shift, staff, isManager);
      assert WeekShifts() == old(WeekShifts());
    }

    /** Hands the assignment to the day that holds the shift; the shift's own
        check decides, and the week stays valid. */
    method AssignOnShift(day: Day, shift: Shift, staff: StaffMember, isManager: bool) returns (r: string)
      requires Valid()
      requires day in weekdays && shift in day.shifts
      modifies shift
      ensures Valid()
      ensures isManager ==>
        && (r == "" <==> old(shift.manager) == null)
        && (r == "" ==> shift.manager == staff)
        && (r != "" ==> r == ManagerTakenError && shift.manager == old(shift.manager))
        && shift.assignedStaff == old(shift.assignedStaff)
      ensures !isManager ==>
        && (r == "" <==> staff !in old(shift.assignedStaff))
        && (r == "" ==> shift.assignedStaff == InsertSorted(old(shift.assignedStaff), staff, Key))
        && (r != "" ==> r == StaffTakenError && shift.assignedStaff == old(shift.assignedStaff))
        && shift.manager == old(shift.manager)
    {
      WeekCovers();
      label before:
      var o := day.AssignStaff(shift, staff, isManager);
      r := Reply(o);
      forall i | 0 <= i < 7 ensures weekdays[i].Valid() {
        assert weekdays[i].Ordered();
        forall j | 0 <= j < |weekdays[i].shifts| ensures weekdays[i].shifts[j].Valid() {
          assert old@before(weekdays[i].shifts[j].Valid());
        }
      }
    }

    /** Every registered member's conventional name, in registry order. */
    method ListRegisteredStaff() returns (r: seq<string>)
      ensures r == Names(staffList)
    {
      r := NamesOf(staffList);
    }

    /** The workers and manager slots of the first k days, day by day. */
    function WeekStaff(k: nat): (r: seq<StaffMember?>)
      reads weekdays, WeekShifts()
      requires k <= |weekdays|
    {
      if k == 0 then []
      else WeekCovers(); WeekStaff(k - 1) + AllStaff(weekdays[k - 1].shifts)
    }

    /** The registered members that work on or manage no shift of the week. */
    function Unassigned(): (r: seq<StaffMember>)
      reads this, weekdays, WeekShifts()
    {
      Without(staffList, WeekStaff(|weekdays|))
    }

    /** The registry is sorted and removal keeps its order, so the
        Collections.sort that follows the removal is a stable sort of a
        sorted list and leaves it as it is. */
    method ListUnassignedStaff() returns (r: seq<string>)
      requires Valid()
      ensures SortedBy(Unassigned(), Key)
      ensures r == Names(Unassigned())
    {
      var working := CollectWeekStaff();
      var unassigned := Without(staffList, working);
      WithoutKeepsOrder(staffList, working);
      r := NamesOf(unassigned);
      assert WeekShifts() == old(WeekShifts());
    }

    /** The staff of every day, Monday to Sunday. */
    method CollectWeekStaff() returns (working: seq<StaffMember?>)
      ensures working == WeekStaff(|weekdays|)
    {
      working := [];
      for i := 0 to |weekdays|
        invariant working == WeekStaff(i)
      {
        label before:
        var today := weekdays[i].ListAllStaffWorkingToday();
        assert WeekShifts() == old@before(WeekShifts());
        working := working + today;
      }
    }

    /** The selected lines of the first k days, day by day. */
    function WeekLines(k: nat, sel: Selector): (r: seq<string>)
      reads weekdays, WeekShifts()
      requires k <= |weekdays|
    {
      if k == 0 then []
      else WeekCovers(); WeekLines(k - 1, sel) + weekdays[k - 1].Lines(sel)
    }

    /** Every shift of the first k days has a manager. */
    ghost predicate ManagedUpTo(k: nat)
      reads weekdays, WeekShifts()
      requires k <= |weekdays|
    {
      forall i, j :: 0 <= i < k && 0 <= j < |weekdays[i].shifts| ==> weekdays[i].shifts[j].manager != null
    }

    /** The loop shared by the cross-day reports: each day's selected lines,
        Monday to Sunday. */
    method CollectWeek(sel: Selector) returns (r: seq<string>)
      requires sel.WithManager? ==> ManagedUpTo(|weekdays|)
      ensures r == WeekLines(|weekdays|, sel)
    {
      r := [];
      for i := 0 to |weekdays|
        invariant r == WeekLines(i, sel)
      {
        label before:
        var lines := weekdays[i].SelectLines(sel);
        assert WeekShifts() == old@before(WeekShifts());
        r := r + lines;
      }
    }

    method ListUnmanagedShifts() returns (r: seq<string>)
      ensures r == WeekLines(|weekdays|, Unmanaged)
    {
      r := CollectWeek(Unmanaged);
    }

    /** status -1 lists the understaffed shifts of the week, 1 the overstaffed. */
    method ListOverOrUnderstaffedShifts(status: int) returns (r: seq<string>)
      ensures r == WeekLines(|weekdays|, WithStatus(status))
    {
      r := CollectWeek(WithStatus(status));
    }

    /** The day error as a one-element list; nothing for a day without shifts;
        otherwise the shop name, the day's name and hours, and one roster line
        per shift. */
    method GetRosterForDay(dayOfWeek: string) returns (r: seq<string>)
      ensures FindDayInWeek(dayOfWeek).Err? ==> r == [NoSuchDayError]
      ensures FindDayInWeek(dayOfWeek).Ok? ==>
        var d := FindDayInWeek(dayOfWeek).value;
        && (d.shifts == [] ==> r == [])
        && (d.shifts != [] ==>
              && r == [shopName, d.dayName + " " + d.GetWorkingHours()] + RosterLines(d.dayName, d.shifts)
              && |r| == |d.shifts| + 2)
    {
      var dayRoster: seq<string> := [];
      var found := FindDayInWeek(dayOfWeek);
      if found.Err? {
        dayRoster := dayRoster + [found.message];
        return dayRoster;
      }
      var day := found.value;
      var lines := day.GetDayRoster();
      dayRoster := dayRoster + lines;
      if |dayRoster| == 0 {
        dayRoster := [];
      } else {
        var header := day.ToString() + " " + day.GetWorkingHours();
        dayRoster := [shopName] + dayRoster;
        assert dayRoster[..1] == [shopName] && dayRoster[1..] == lines;
        dayRoster := dayRoster[..1] + [header] + dayRoster[1..];
        assert dayRoster == [shopName, header] + lines;
      }
      r := dayRoster;
    }

    /** The staff error as a one-element list; nothing when the member works
        no shift; otherwise the member's reversed name and then the lines of
        the shifts whose workers include that very object, in week order. */
    method GetRosterForWorker(givenName: string, familyName: string) returns (r: seq<string>)
      ensures FindRegisteredStaffMember(givenName, familyName).Err? ==> r == [NotRegisteredError]
      ensures FindRegisteredStaffMember(givenName, familyName).Ok? ==>
        var staff := FindRegisteredStaffMember(givenName, familyName).value;
        var lines := WeekLines(|weekdays|, WithWorker(staff));
        r == if lines == [] then [] else [staff.ReversedName()] + lines
    {
      var workerRoster: seq<string> := [];
      var found := FindRegisteredStaffMember(givenName, familyName);
      if found.Err? {
        workerRoster := workerRoster + [found.message];
        return workerRoster;
      }
      var staff := found.value;
      var lines := CollectWeek(WithWorker(staff));
      workerRoster := workerRoster + lines;
      if |workerRoster| == 0 {
        workerRoster := [];
      } else {
        workerRoster := [staff.ReversedName()] + workerRoster;
      }
      r := workerRoster;
    }

    /** As GetRosterForWorker, for the shifts whose manager compares equal by
        name. Every shift of the week is examined and the Java test
        dereferences its manager, so every shift must have one. */
    method GetRosterForManager(givenName: string, familyName: string) returns (r: seq<string>)
      requires FindRegisteredStaffMember(givenName, familyName).Ok? ==> ManagedUpTo(|weekdays|)
      ensures FindRegisteredStaffMember(givenName, familyName).Err? ==> r == [NotRegisteredError]
      ensures FindRegisteredStaffMember(givenName, familyName).Ok? ==>
        var manager := FindRegisteredStaffMember(givenName, familyName).value;
        var lines := WeekLines(|weekdays|, WithManager(manager));
        r == if lines == [] then [] else [manager.ReversedName()] + lines
    {
      var managerRoster: seq<string> := [];
      var found := FindRegisteredStaffMember(givenName, familyName);
      if found.Err? {
        managerRoster := managerRoster + [found.message];
        return managerRoster;
      }
      var manager := found.value;
      var lines := CollectWeek(WithManager(manager));
      managerRoster := managerRoster + lines;
      if |managerRoster| == 0 {
        managerRoster := [];
      } else {
        managerRoster := [manager.ReversedName()] + managerRoster;
      }
      r := managerRoster;
    }

    function ToString(): (r: string) {
      shopName
    }

    /** The days render as their names, Monday to Sunday, and no two render
        alike, so the toString match of findDayInWeek singles out one day. */
    lemma DayRenderings()
      requires Valid()
      ensures forall i :: 0 <= i < 7 ==> weekdays[i].ToString() == DayNames[i]
      ensures forall i, j :: 0 <= i < j < 7 ==> weekdays[i].ToString() != weekdays[j].ToString()
    {
      DayNamesDistinct();
    }

    /** The cross-day reports are the seven per-day results concatenated,
        Monday first. */
    lemma {:induction false} WeekLinesInDayOrder(sel: Selector)
      requires |weekdays| == 7
      ensures WeekLines(7, sel) ==
        weekdays[0].Lines(sel) + weekdays[1].Lines(sel) + weekdays[2].Lines(sel) + weekdays[3].Lines(sel) +
        weekdays[4].Lines(sel) + weekdays[5].Lines(sel) + weekdays[6].Lines(sel)
    {
      assert WeekLines(1, sel) == weekdays[0].Lines(sel);
      assert WeekLines(2, sel) == WeekLines(1, sel) + weekdays[1].Lines(sel);
      assert WeekLines(3, sel) == WeekLines(2, sel) + weekdays[2].Lines(sel);
      assert WeekLines(4, sel) == WeekLines(3, sel) + weekdays[3].Lines(sel);
      assert WeekLines(5, sel) == WeekLines(4, sel) + weekdays[4].Lines(sel);
      assert WeekLines(6, sel) == WeekLines(5, sel) + weekdays[5].Lines(sel);
    }

    /** A member occurs among the staff of the first k days exactly when it
        works on, or manages, one of their shifts. */
    lemma {:induction false} WeekStaffMembers(k: nat, m: StaffMember)
      requires k <= |weekdays|
      ensures m in WeekStaff(k) <==> exists i :: 0 <= i < k && WorksOn(weekdays[i], m)
    {
      if k > 0 {
        WeekStaffMembers(k - 1, m);
        AllStaffMembers(weekdays[k - 1].shifts, m);
      }
    }

    /** listUnassignedStaff keeps exactly the registered members that work
        on and manage no shift of the week, in registry order. */
    lemma UnassignedStaff(m: StaffMember)
      requires Valid()
      ensures m in Unassigned() <==> m in staffList && forall i :: 0 <= i < 7 ==> !WorksOn(weekdays[i], m)
      ensures SortedBy(Unassigned(), Key)
    {
      WeekStaffMembers(7, m);
      WithoutMembers(staffList, WeekStaff(7));
      WithoutKeepsOrder(staffList, WeekStaff(7));
      if m in staffList && m !in WeekStaff(7) {
        var i :| 0 <= i < |staffList| && staffList[i] == m;
      }
    }
  }

  /** The member works on, or manages, some shift of the day. */
  predicate WorksOn(d: Day, m: StaffMember)
    reads d, d.shifts
  {
    exists j :: 0 <= j < |d.shifts| && (m in d.shifts[j].assignedStaff || d.shifts[j].manager == m)
  }

  /** Registering the same names twice succeeds twice: the duplicate test
      compares object identity, and the registry then lists both members. */
  method DuplicateRegistrationAccepted(givenName: string, familyName: string)
    returns (first: string, second: string, registered: seq<string>)
    ensures first == "" && second == ""
    ensures |registered| == 2
    ensures registered[0] == givenName + " " + familyName && registered[1] == givenName + " " + familyName
  {
    var roster := new Roster("Shop");
    first := roster.RegisterStaff(Some(givenName), Some(familyName));
    ghost var m1: StaffMember :| m1.givenName == givenName && m1.familyName == familyName &&
      roster.staffList == InsertSorted([], m1, Key);
    InsertIntoEmpty(m1, Key);
    assert roster.staffList == [m1];
    second := roster.RegisterStaff(Some(givenName), Some(familyName));
    ghost var m2: StaffMember :| m2.givenName == givenName && m2.familyName == familyName &&
      roster.staffList == InsertSorted([m1], m2, Key);
    assert Key(m1) == Key(m2);
    assert [m1][0] == m1;
    InsertSortedLast([m1], m2, Key);
    assert roster.staffList == [m1, m2];
    registered := roster.ListRegisteredStaff();
  }

  /** A new roster renders as the shop name it was created with, and its
      days render as the seven day names in week order. */
  method NewRosterRendering(name: string) returns (shop: string, first: string, last: string)
    ensures shop == name
    ensures first == "Monday" && last == "Sunday"
  {
    var roster := new Roster(name);
    shop := roster.ToString();
    first := roster.weekdays[0].ToString();
    last := roster.weekdays[6].ToString();
  }

  /** The seven names differ pairwise. */
  lemma DayNamesDistinct()
    ensures forall i, j :: 0 <= i < j < 7 ==> DayNames[i] != DayNames[j]
  {
    forall i, j | 0 <= i < j < 7 ensures DayNames[i] != DayNames[j] {
      assert DayNames[i][0] != DayNames[j][0] || DayNames[i][1] != DayNames[j][1];
    }
  }
}
