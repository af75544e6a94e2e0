/** A shift: a start/end window, at most one manager, a list of workers kept
    sorted by the staff ordering, and the minimum number of workers the shift
    needs (the manager not counted). */
module Shifts {
  import opened Lexical
  import opened Messages
  import opened Times
  import opened StaffMembers

  class Shift {
    const startTime: string
    const endTime: string
    const minWorkers: int
    var manager: StaffMember?
    var assignedStaff: seq<StaffMember>

    /** The workers are sorted by compareTo and no member object appears twice. */
    ghost predicate Valid()
      reads this
    {
      && SortedBy(assignedStaff, Key)
      && NoRepeats(assignedStaff)
    }

    /** The minimum is taken as an already parsed integer. */
    constructor (start: string, end: string, minimumWorkers: int)
      ensures startTime == start && endTime == end && minWorkers == minimumWorkers
      ensures manager == null && assignedStaff == []
      ensures Valid()
    {
      startTime := start;
      endTime := end;
      minWorkers := minimumWorkers;
      manager := null;
      assignedStaff := [];
    }

    /** Sets the manager of a shift that has none; a second manager is refused
        and the first one stays. */
    method AssignManager(staff: StaffMember) returns (r: Outcome)
      modifies this`manager
      ensures old(manager) == null ==> r == Pass && manager == staff
      ensures old(manager) != null ==> r == Fail(ManagerTakenError) && manager == old(manager)
    {
      if manager == null {
        manager := staff;
        r := Pass;
      } else {
        r := Fail(ManagerTakenError);
      }
    }

    /** Adds a worker. The very object already in the list is refused and the
        list stays as it was; otherwise the list grows by exactly that member,
        placed where a stable sort by compareTo puts it. */
    method AssignStaff(staff: StaffMember) returns (r: Outcome)
      requires Valid()
      modifies this`assignedStaff
      ensures Valid()
      ensures staff in old(assignedStaff) ==> r == Fail(StaffTakenError) && assignedStaff == old(assignedStaff)
      ensures staff !in old(assignedStaff) ==>
        && r == Pass
        && assignedStaff == InsertSorted(old(assignedStaff), staff, Key)
        && multiset(assignedStaff) == multiset(old(assignedStaff)) + multiset{staff}
    {
      if staff in assignedStaff {
        r := Fail(StaffTakenError);
      } else {
        InsertSortedKeepsSorted(assignedStaff, staff, Key);
        InsertSortedNoRepeats(assignedStaff, staff, Key);
        assignedStaff := InsertSorted(assignedStaff, staff, Key);
        r := Pass;
      }
    }

    /** A copy of the workers with the manager slot appended, present or not. */
    function GetAssignedStaff(): (r: seq<StaffMember?>)
      reads this
      ensures |r| == |assignedStaff| + 1
      ensures forall i :: 0 <= i < |assignedStaff| ==> r[i] == assignedStaff[i]
      ensures r[|assignedStaff|] == manager
    {
      assignedStaff + [manager]
    }

    /** Integer.compare of the worker count with the minimum: -1 understaffed,
        0 exactly staffed, 1 overstaffed. The manager is not counted. */
    function OverOrUnderstaffed(): (r: int)
      reads this
      ensures r == -1 <==> |assignedStaff| < minWorkers
      ensures r == 0 <==> |assignedStaff| == minWorkers
      ensures r == 1 <==> |assignedStaff| > minWorkers
      ensures -1 <= r <= 1
    {
      if |assignedStaff| < minWorkers then -1
      else if |assignedStaff| == minWorkers then 0
      else 1
    }

    /** A manager is present exactly when the manager slot that
        getAssignedStaff appends is not null. */
    predicate IsManagerAssigned()
      reads this
      ensures IsManagerAssigned() <==> GetAssignedStaff()[|assignedStaff|] != null
    {
      manager != null
    }

    /** Compares the manager's names with the given member's; the Java code
        dereferences the manager, so it must be present. */
    predicate IsSpecificManagerAssigned(other: StaffMember)
      reads this
      requires manager != null
      ensures IsSpecificManagerAssigned(other) <==> Key(manager) == Key(other)
      ensures manager.givenName == other.givenName && manager.familyName == other.familyName ==>
        IsSpecificManagerAssigned(other)
    {
      CompareZeroIff(Key(manager), Key(other));
      manager.CompareTo(other) == 0
    }

    /** Identity membership among the workers; the manager is not looked at. */
    predicate IsStaffMemberAssigned(staff: StaffMember)
      reads this
      ensures IsStaffMemberAssigned(staff) <==> staff in GetAssignedStaff()[..|assignedStaff|]
      ensures staff == manager && staff !in assignedStaff ==> !IsStaffMemberAssigned(staff)
      ensures staff in GetAssignedStaff() && staff != manager ==> IsStaffMemberAssigned(staff)
    {
      staff in assignedStaff
    }

    /** Exact equality of both ends of the window. */
    predicate CompareShiftTimes(start: string, end: string) {
      startTime == start && endTime == end
    }

    /** The ordering used for sorting shifts: by start time only. */
    function CompareTo(other: Shift): (r: int) {
      Compare(startTime, other.startTime)
    }

    /** "[start-end]". */
    function ToString(): (r: string) {
      "[" + startTime + "-" + endTime + "]"
    }

    /** The worker part of the roster line: the workers' conventional names
        joined by ", " in list order, or "No workers assigned". */
    function WorkersText(): (r: string)
      reads this
    {
      if |assignedStaff| == 0 then "No workers assigned" else Join(Names(assignedStaff))
    }

    /** The manager part of the roster line. */
    function ManagerText(): (r: string)
      reads this
    {
      if manager == null then "[No manager assigned]" else "Manager:" + manager.ReversedName()
    }

    /** The line shiftInfoForRoster renders: "[s-e] Manager:Family, Given [w1, w2]". */
    function RosterLine(): (r: string)
      reads this
    {
      ToString() + " " + ManagerText() + " [" + WorkersText() + "]"
    }

    /** Builds the worker names in a loop, each followed by ", ", and then drops
        the final separator. */
    method ShiftInfoForRoster() returns (r: string)
      ensures r == RosterLine()
    {
      var workerNames := "";
      if |assignedStaff| == 0 {
        workerNames := "No workers assigned";
      } else {
        for i := 0 to |assignedStaff|
          invariant workerNames == Suffixed(Names(assignedStaff[..i]))
        {
          assert Names(assignedStaff[..i + 1])[..i] == Names(assignedStaff[..i]);
          workerNames := workerNames + assignedStaff[i].ToString() + ", ";
        }
        assert assignedStaff[..|assignedStaff|] == assignedStaff;
        SuffixedIsJoinPlusSeparator(Names(assignedStaff));
        workerNames := workerNames[..|workerNames| - 2];
      }
      var managerName;
      if manager == null {
        managerName := "[No manager assigned]";
      } else {
        managerName := "Manager:" + manager.ReversedName();
      }
      r := ToString() + " " + managerName + " [" + workerNames + "]";
    }
  }

  /** The conventional names of the members, in order. */
  function Names(ms: seq<StaffMember>): (r: seq<string>) {
    seq(|ms|, i requires 0 <= i < |ms| => ms[i].ToString())
  }

  /** The start time is the sort key of shifts. */
  function StartOf(s: Shift): (r: string) {
    s.startTime
  }

  /** The rendering "[start-end]" gives back both times by position, which is
      what the clash test of Day relies on: characters 1 to 5 are the start
      and 7 to 11 the end. */
  lemma ToStringRoundTrip(s: Shift)
    requires TimeFormatOk(s.startTime, s.endTime)
    ensures |s.ToString()| == 13
    ensures s.ToString()[1..6] == s.startTime && s.ToString()[7..12] == s.endTime
  {
    var t := s.ToString();
    assert t == "[" + s.startTime + "-" + s.endTime + "]";
    assert t[1..6] == s.startTime;
  }

  /** On well-formed windows the window test is string equality on both
      ends, which is the same as the shift rendering as "[start-end]". */
  lemma CompareShiftTimesByRendering(s: Shift, start: string, end: string)
    requires TimeFormatOk(s.startTime, s.endTime) && TimeFormatOk(start, end)
    ensures s.CompareShiftTimes(start, end) <==> s.ToString() == "[" + start + "-" + end + "]"
  {
    ToStringRoundTrip(s);
    var t := "[" + start + "-" + end + "]";
    assert t[1..6] == start && t[7..12] == end;
  }

  /** The worker test compares identity and the manager test compares names:
      with a member as a shift's worker and manager, a second member with the
      same names is not a worker of the shift but is its manager. A member
      that only manages a shift is not one of its workers. */
  method IdentityForWorkersNamesForManager(start: string, end: string, given: string, family: string)
    returns (firstWorks: bool, secondWorks: bool, firstManages: bool, secondManages: bool, bossWorks: bool)
    ensures firstWorks && !secondWorks
    ensures firstManages && secondManages
    ensures !bossWorks
  {
    var managed := new Shift(start, end, 1);
    var boss := new StaffMember(given, family);
    var taken := managed.AssignManager(boss);
    bossWorks := managed.IsStaffMemberAssigned(boss);
    var shift := new Shift(start, end, 1);
    var first := new StaffMember(given, family);
    var second := new StaffMember(given, family);
    var worker := shift.AssignStaff(first);
    var manager := shift.AssignManager(first);
    assert shift.assignedStaff == [first];
    firstWorks := shift.IsStaffMemberAssigned(first);
    secondWorks := shift.IsStaffMemberAssigned(second);
    firstManages := shift.IsSpecificManagerAssigned(first);
    secondManages := shift.IsSpecificManagerAssigned(second);
  }

  /** Shifts are ordered by start alone: compareTo is zero exactly when the
      starts are equal, whatever the ends, managers and workers. */
  lemma CompareToByStartOnly(a: Shift, b: Shift)
    ensures a.CompareTo(b) == 0 <==> a.startTime == b.startTime
    ensures a.CompareTo(b) == -b.CompareTo(a)
  {
    CompareZeroIff(a.startTime, b.startTime);
    CompareAntisymmetric(a.startTime, b.startTime);
  }

  /** A roster line opens with the shift's own rendering and a space, and
      closes with the bracketed worker list. */
  lemma RosterLineShape(s: Shift)
    ensures |s.RosterLine()| > |s.ToString()|
    ensures s.RosterLine()[..|s.ToString()|] == s.ToString()
    ensures s.RosterLine()[|s.ToString()|] == ' '
    ensures s.RosterLine()[|s.RosterLine()| - 1] == ']'
  {
    var body := s.ManagerText() + " [" + s.WorkersText();
    assert s.RosterLine() == s.ToString() + " " + body + "]";
    ConcatParts(s.ToString(), " " + body + "]");
    ConcatParts(" ", body + "]");
    ConcatParts(body, "]");
  }
}
